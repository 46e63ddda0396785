# WeChat Channels video decryption core, modelled in Dafny

The command-line tool `decrypt_wechat_video_cli.py` recovers a video whose
first bytes were XORed with a keystream. Two pure pieces do the work, and
this project models them:

- **Keystream loader** (`read_keystream_from_string`, and the text half of
  `read_keystream_from_file`). Four `str.replace` calls delete every space,
  LF, CR and TAB. Then `bytes.fromhex` decodes the rest as digit pairs, either
  case, high nibble first. Malformed text gives `None` and raises nothing.
  The file variant first calls `str.strip()`, which trims all Python
  whitespace from both ends. Module `KeystreamLoader`, file
  `keystream_loader.dfy`.
- **XOR decoder** (the in-memory part of `decrypt_video`). With
  `k = min(|keystream|, |encrypted|)`, bytes `[0, k)` are XORed with the
  keystream and bytes `[k, |encrypted|)` are copied. The result is judged
  valid when the File Type Box tag `ftyp` (ISO/IEC 14496-12, section 4.3)
  occurs in its first 32 bytes. A missing tag is a flag, not an error: the
  output is still produced. Module `XorDecoder`, file `xor_decoder.dfy`.

Bytes are `bv8`, text is `string` (a sequence of Unicode scalar values). `Wrappers`
(`wrappers.dfy`) holds `Option`, which stands for Python's `None`, and `Min`.

Some points about what the code itself does, which the model follows:

- Failure is a bare `None`, with no error value, so `ParseHex` returns
  `Option`.
- The file loader also calls `.strip()`, and `read_keystream_from_string`
  does not. So a keystream file may end with non-ASCII whitespace such as a
  no-break space, but text passed straight to `read_keystream_from_string`,
  as the `--keystream-hex` option of `cli_mode` does, may not. The interactive
  prompt and the GUI text box strip pasted text before they pass it on.
  `ReadKeystreamText` models the file loader, and `NoBreakSpaceDifference`
  shows the difference.
- The help text says the keystream must be reversed. Neither the code nor
  this model reverses it.
- The 131072-byte keystream length is checked only by callers: `cli_mode`
  prints a warning and goes on, and `interactive_mode` asks the user to
  confirm and stops unless the answer is `y`. No member requires that length.

## Model

| member | source | states |
|---|---|---|
| KeystreamLoader.RemoveAll | decrypt_wechat_video_cli.py:68 | one `replace(c, '')` leaves no occurrence of `c` and never lengthens the text |
| KeystreamLoader.RemoveAllKeepsOthers | decrypt_wechat_video_cli.py:68 | one `replace(c, '')` keeps every character other than `c` exactly as often as it occurs |
| KeystreamLoader.RemoveAllSingle | decrypt_wechat_video_cli.py:68 | on a single character, `replace(c, '')` deletes it exactly when it is `c` and keeps it otherwise |
| KeystreamLoader.RemoveAllAppend | decrypt_wechat_video_cli.py:68 | `replace(c, '')` distributes over concatenation; with the single-character case this fixes that the kept characters stay in order |
| KeystreamLoader.Clean | decrypt_wechat_video_cli.py:68 | the chain of four replacements in the code's order leaves no space, LF, CR or TAB and never lengthens the text |
| KeystreamLoader.CleanKeepsOthers | decrypt_wechat_video_cli.py:68 | the chain keeps every character other than those four exactly as often as it occurs |
| KeystreamLoader.CleanAppend | decrypt_wechat_video_cli.py:68 | the four-replacement chain distributes over concatenation, so pieces of the text are cleaned independently |
| KeystreamLoader.CleanIsFilter | decrypt_wechat_video_cli.py:68 | the chain of four replacements equals one pass that keeps exactly the characters other than space, LF, CR and TAB, in order |
| KeystreamLoader.CleanRemovesWhitespace | decrypt_wechat_video_cli.py:68 | after cleaning, no space, LF, CR or TAB remains anywhere |
| KeystreamLoader.CleanIdentity | decrypt_wechat_video_cli.py:68 | text without those four characters passes through cleaning unchanged |
| KeystreamLoader.CleanAllWhitespace | decrypt_wechat_video_cli.py:68 | text made only of those four characters cleans to the empty string |
| KeystreamLoader.Nibble | decrypt_wechat_video_cli.py:71 | a hex digit of either case has a value below 16, and below 10 exactly for `0`-`9` |
| KeystreamLoader.PairByte | decrypt_wechat_video_cli.py:71 | the byte of a digit pair has the first digit's value as its high nibble and the second's as its low nibble |
| KeystreamLoader.FromHex | decrypt_wechat_video_cli.py:71 | `fromhex` succeeds exactly when the length is even and every character is in `[0-9a-fA-F]`; on success it gives half as many bytes |
| KeystreamLoader.FromHexAt | decrypt_wechat_video_cli.py:71 | on success, digit pair `j` (high nibble first) is byte `j` |
| KeystreamLoader.ParseHex | decrypt_wechat_video_cli.py:67-78 | `read_keystream_from_string` gives `None` exactly when the cleaned text has odd length or a non-hex character; otherwise it gives half as many bytes as the cleaned text has characters |
| KeystreamLoader.ParseHexAt | decrypt_wechat_video_cli.py:68-71 | on success, pair `j` of the cleaned text becomes keystream byte `j` |
| KeystreamLoader.ParseHexIgnoresWhitespace | decrypt_wechat_video_cli.py:68 | a space, LF, CR or TAB inserted anywhere does not change the result |
| KeystreamLoader.ParseHexRejectsStray | decrypt_wechat_video_cli.py:70-78 | any other non-hex character anywhere makes the parse give `None` |
| KeystreamLoader.ParseHexCaseInsensitive | decrypt_wechat_video_cli.py:71 | upper-casing or lower-casing the text does not change the result |
| KeystreamLoader.FromHexCaseBlind | decrypt_wechat_video_cli.py:71 | two texts that agree up to ASCII case decode alike |
| KeystreamLoader.EncodeHex | api-service/server.js:187-190 | the service's hex form of a keystream has two characters per byte, all of them lower-case hex digits |
| KeystreamLoader.EncodeHexAt | api-service/server.js:187-190 | characters `2j` and `2j + 1` of the service's hex form are the digit pair of keystream byte `j` |
| KeystreamLoader.ByteHexRoundTrip | api-service/server.js:188-189 | the two zero-padded lower-case digits of a byte are hex digits and decode back to that byte |
| KeystreamLoader.FromHexEncodeHex | decrypt_wechat_video_cli.py:71 | decoding undoes the lower-case two-digits-per-byte encoding |
| KeystreamLoader.ParseHexEncodeHex | api-service/server.js:187-190 | the service's lower-case hex text parses back to the very same keystream |
| KeystreamLoader.EncodeHexFromHex | decrypt_wechat_video_cli.py:71 | converse round trip: a successful decode re-encodes to its input lower-cased |
| KeystreamLoader.ParseHexCanonical | decrypt_wechat_video_cli.py:68-71 | a successful parse re-encodes to the cleaned text lower-cased, so the service's format is the canonical form |
| KeystreamLoader.IsPySpace | decrypt_wechat_video_cli.py:35 | the whitespace `strip()` removes includes space, LF, CR and TAB and never a hex digit |
| KeystreamLoader.StripStart | decrypt_wechat_video_cli.py:35 | the front scan of `strip()` stops at the first non-whitespace index and passes only Python whitespace |
| KeystreamLoader.StripEnd | decrypt_wechat_video_cli.py:35 | the back scan of `strip()` stops just after the last non-whitespace character and passes only Python whitespace |
| KeystreamLoader.PyStrip | decrypt_wechat_video_cli.py:35 | `strip()` gives a contiguous middle slice, with only Python whitespace cut from each side and all of it at both ends: the slice is empty or starts and ends with non-whitespace |
| KeystreamLoader.StripBoundsUnique | decrypt_wechat_video_cli.py:35 | any two cuts that remove only whitespace, and all of it at both ends, keep the same text, so the result of `strip()` is determined |
| KeystreamLoader.ReadKeystreamText | decrypt_wechat_video_cli.py:35-50 | the file loader parses the text with all leading and trailing Python whitespace trimmed, and nothing else cut |
| KeystreamLoader.ReadKeystreamTextAgrees | decrypt_wechat_video_cli.py:35-42 | when the only Python whitespace present is space, LF, CR or TAB, the file and string loaders agree |
| KeystreamLoader.PyStripSnoc | decrypt_wechat_video_cli.py:35 | a trailing whitespace character does not survive `strip()` |
| KeystreamLoader.NoBreakSpaceDifference | decrypt_wechat_video_cli.py:35-42 | a trailing no-break space is ignored by the file loader but makes the string loader fail |
| KeystreamLoader.ExampleAccepted | decrypt_wechat_video_cli.py:67-78 | `"0a 1b\n2c\t3D"` gives the four bytes `0a 1b 2c 3d` |
| KeystreamLoader.ExampleOddLength | decrypt_wechat_video_cli.py:70-78 | `"0a1"` (odd length) gives `None` |
| KeystreamLoader.ExampleNonHex | decrypt_wechat_video_cli.py:70-78 | `"zz11"` (non-hex characters) gives `None` |
| XorDecoder.XorZip | decrypt_wechat_video_cli.py:120 | the zip-and-XOR stops at the shorter input, and byte `i` is `x[i] ^ y[i]` |
| XorDecoder.Decrypt | decrypt_wechat_video_cli.py:111-123 | the output is exactly as long as the input; byte `i` is XORed with keystream byte `i` below `min` of the two lengths and copied from there on |
| XorDecoder.DecryptEmptyKeystream | decrypt_wechat_video_cli.py:123 | an empty keystream leaves the input unchanged |
| XorDecoder.DecryptInvolution | decrypt_wechat_video_cli.py:120-123 | decrypting the output again with the same keystream returns the original input |
| XorDecoder.DecryptIgnoresKeystreamTail | decrypt_wechat_video_cli.py:111-120 | keystream bytes beyond the input's length are never read: extending the keystream changes nothing |
| XorDecoder.DecryptLongKeystream | decrypt_wechat_video_cli.py:111-120 | a keystream at least as long as the input XORs the whole input with its first len(input) bytes |
| XorDecoder.DecryptShortKeystream | decrypt_wechat_video_cli.py:111-123 | a keystream shorter than the input XORs only its own length, and the rest is copied verbatim |
| XorDecoder.FindFrom | decrypt_wechat_video_cli.py:133 | the search from `start` returns a match offset with no match before it, or -1 when there is none from `start` on |
| XorDecoder.Occurs | decrypt_wechat_video_cli.py:132 | `in` is true exactly when the needle occurs at some offset; the empty needle is always in, a longer needle never |
| XorDecoder.Find | decrypt_wechat_video_cli.py:132-133 | `find` returns -1 exactly when `in` is false, and otherwise the first match offset |
| XorDecoder.Window | decrypt_wechat_video_cli.py:132 | the window holds the first min(32, len(D)) bytes, and the signature occurs in it at offset `i` exactly when it occurs in D at `i` and ends within the first 32 bytes |
| XorDecoder.PrefixMatch | decrypt_wechat_video_cli.py:132-133 | a match in a prefix `D[:n]` is exactly a match in D that ends within `n` bytes |
| XorDecoder.FindFtyp | decrypt_wechat_video_cli.py:131-134 | an offset is reported exactly when `ftyp` lies inside the first min(32, len(D)) bytes; it is the first occurrence and at most 28 |
| XorDecoder.DecryptVideo | decrypt_wechat_video_cli.py:111-156 | the output is always produced, as long as the input and undone by decrypting again; the verdict is true exactly when saving succeeded and `ftyp` lies in the first 32 bytes |
| XorDecoder.ConstructedKeystreamFindsOffset4 | decrypt_wechat_video_cli.py:120-134 | a keystream that zeroes bytes 0..4 and turns bytes 4..8 into `ftyp` makes the check report offset 4 |

## Left out

- File reading and writing, the existence checks, `os.path.getsize` and UTF-8 decoding of the keystream file are I/O. The model starts from text and byte buffers already in memory.
- DecryptVideo: takes whether the write succeeded as an input `saved`. It does not model the early `False` for a missing input file, which is I/O.
- All `print` output, the verbose switch and the KB/MB float formatting are presentation and are not modelled.
- `interactive_mode`, `cli_mode`, `main`, argparse, `sys.exit`, the `.mp4` suffix default and the 131072-byte length check belong to the shell layer. `cli_mode` only warns about another length, `interactive_mode` asks for confirmation, and no member requires that length.
- The tkinter front end `decrypt_wechat_video_gui.py` is not part of this model. It runs the same routine on a worker thread.
- `api-service/server.js` is not part of this model, except for its lower-case hex output format, which `EncodeHex` reproduces for the round trip. Its fixed-offset `ftyp` check is a different rule and is not merged in.
- Keystream generation (Isaac64 in WebAssembly) and any keystream reversal are not done by `decrypt_wechat_video_cli.py` and are not modelled.
- FromHex: treats vertical tab, form feed and the other ASCII whitespace that Python's `bytes.fromhex` skips before a digit pair and at the end as non-hex characters, so text with such a character between pairs or at the end gives `None` here, while Python accepts it. The string and file loaders therefore differ on a trailing vertical tab or form feed here, though not in Python.
- ParseHex: returns `None` without the text of Python's `ValueError`. The code only prints that message.
