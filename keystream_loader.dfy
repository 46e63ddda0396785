/**
 * The keystream loader: turns hexadecimal text, possibly broken up by spaces,
 * line breaks and tabs, into keystream bytes (`read_keystream_from_string`, and
 * the text half of `read_keystream_from_file`) as `decrypt_wechat_video_cli.py`
 * does it: four `str.replace` calls delete the whitespace, then
 * `bytes.fromhex` decodes digit pairs. Malformed text yields `None`. The file
 * loader first trims the text with `str.strip()`.
 */
module KeystreamLoader {
  import opened Wrappers

  // ---------------------------------------------------------------------------
  // Cleaning: the chain of `replace(c, '')` calls
  // ---------------------------------------------------------------------------

  /** The four characters the loader deletes: space, LF, CR and TAB. */
  predicate IsStripped(c: char) {
    c == ' ' || c == '\n' || c == '\r' || c == '\t'
  }

  /**
   * `s.replace(c, '')`: every occurrence of `c` deleted, every other character
   * kept as often as it occurs (and in order: `RemoveAllSingle`, `RemoveAllAppend`).
   */
  function RemoveAll(s: string, c: char): (r: string)
    ensures |r| <= |s|
    ensures forall i :: 0 <= i < |r| ==> r[i] != c
  {
    if s == [] then []
    else if s[0] == c then RemoveAll(s[1..], c)
    else [s[0]] + RemoveAll(s[1..], c)
  }

  /** `replace(c, '')` keeps every other character exactly as often as it occurs. */
  lemma {:induction false} RemoveAllKeepsOthers(s: string, c: char)
    ensures multiset(RemoveAll(s, c)) == multiset(s)[c := 0]
  {
    if s != [] {
      assert s == [s[0]] + s[1..];
      RemoveAllKeepsOthers(s[1..], c);
    }
  }

  /**
   * The cleaning chain of `read_keystream_from_string`, in its order: space,
   * LF, CR, TAB. None of the four is left.
   */
  function Clean(text: string): (r: string)
    ensures |r| <= |text|
    ensures forall i :: 0 <= i < |r| ==> !IsStripped(r[i])
  {
    var r := RemoveAll(RemoveAll(RemoveAll(RemoveAll(text, ' '), '\n'), '\r'), '\t');
    ChainLeavesNoWhitespace(text, r);
    r
  }

  lemma ChainLeavesNoWhitespace(text: string, r: string)
    requires r == RemoveAll(RemoveAll(RemoveAll(RemoveAll(text, ' '), '\n'), '\r'), '\t')
    ensures forall i :: 0 <= i < |r| ==> !IsStripped(r[i])
  {
    var r1 := RemoveAll(text, ' ');
    var r2 := RemoveAll(r1, '\n');
    var r3 := RemoveAll(r2, '\r');
    RemoveAllKeepsOthers(r1, '\n');
    RemoveAllKeepsOthers(r2, '\r');
    RemoveAllKeepsOthers(r3, '\t');
    forall i | 0 <= i < |r| ensures !IsStripped(r[i]) {
      var x := r[i];
      assert x in multiset(r);
      assert x in multiset(r3) && x != '\t';
      assert x in multiset(r2) && x != '\r';
      assert x in multiset(r1) && x != '\n';
      assert x in r1;
    }
  }

  /** Cleaning keeps every character other than the four, as often as it occurs. */
  lemma CleanKeepsOthers(text: string)
    ensures multiset(Clean(text)) == multiset(text)[' ' := 0]['\n' := 0]['\r' := 0]['\t' := 0]
  {
    var r1 := RemoveAll(text, ' ');
    var r2 := RemoveAll(r1, '\n');
    var r3 := RemoveAll(r2, '\r');
    RemoveAllKeepsOthers(text, ' ');
    RemoveAllKeepsOthers(r1, '\n');
    RemoveAllKeepsOthers(r2, '\r');
    RemoveAllKeepsOthers(r3, '\t');
  }

  /** Reference definition of cleaning: one pass keeping the non-whitespace characters. */
  function WithoutWhitespace(s: string): (r: string)
    ensures |r| <= |s|
    ensures forall i :: 0 <= i < |r| ==> !IsStripped(r[i])
  {
    if s == [] then []
    else if IsStripped(s[0]) then WithoutWhitespace(s[1..])
    else [s[0]] + WithoutWhitespace(s[1..])
  }

  lemma {:induction false} RemoveAllAppend(a: string, b: string, c: char)
    ensures RemoveAll(a + b, c) == RemoveAll(a, c) + RemoveAll(b, c)
  {
    if a == [] {
      assert a + b == b;
    } else {
      assert (a + b)[1..] == a[1..] + b;
      RemoveAllAppend(a[1..], b, c);
    }
  }

  /** One character: `replace(c, '')` deletes it exactly when it is `c`. */
  lemma RemoveAllSingle(x: char, c: char)
    ensures RemoveAll([x], c) == if x == c then [] else [x]
  {
    assert [x][1..] == [];
  }

  /** Cleaning distributes over concatenation. */
  lemma CleanAppend(a: string, b: string)
    ensures Clean(a + b) == Clean(a) + Clean(b)
  {
    RemoveAllAppend(a, b, ' ');
    RemoveAllAppend(RemoveAll(a, ' '), RemoveAll(b, ' '), '\n');
    RemoveAllAppend(RemoveAll(RemoveAll(a, ' '), '\n'), RemoveAll(RemoveAll(b, ' '), '\n'), '\r');
    RemoveAllAppend(RemoveAll(RemoveAll(RemoveAll(a, ' '), '\n'), '\r'),
                    RemoveAll(RemoveAll(RemoveAll(b, ' '), '\n'), '\r'), '\t');
  }

  /** Cleaning one character deletes it exactly when it is whitespace. */
  lemma CleanSingle(x: char)
    ensures Clean([x]) == if IsStripped(x) then [] else [x]
  {
    assert [x][1..] == [];
  }

  /** The chain of four replacements is the one-pass whitespace filter. */
  lemma {:induction false} CleanIsFilter(s: string)
    ensures Clean(s) == WithoutWhitespace(s)
  {
    if s != [] {
      assert s == [s[0]] + s[1..];
      CleanAppend([s[0]], s[1..]);
      CleanSingle(s[0]);
      CleanIsFilter(s[1..]);
    }
  }

  /** Text without whitespace is left as it is by cleaning. */
  lemma {:induction false} CleanIdentity(s: string)
    requires forall i :: 0 <= i < |s| ==> !IsStripped(s[i])
    ensures Clean(s) == s
  {
    if s != [] {
      assert s == [s[0]] + s[1..];
      CleanAppend([s[0]], s[1..]);
      CleanSingle(s[0]);
      CleanIdentity(s[1..]);
    }
  }

  /** Text made only of whitespace cleans to the empty string. */
  lemma {:induction false} CleanAllWhitespace(s: string)
    requires forall i :: 0 <= i < |s| ==> IsStripped(s[i])
    ensures Clean(s) == []
  {
    if s != [] {
      assert s == [s[0]] + s[1..];
      CleanAppend([s[0]], s[1..]);
      CleanSingle(s[0]);
      CleanAllWhitespace(s[1..]);
    }
  }

  // ---------------------------------------------------------------------------
  // Decoding: `bytes.fromhex` on the cleaned text
  // ---------------------------------------------------------------------------

  predicate IsHexDigit(c: char) {
    ('0' <= c <= '9') || ('a' <= c <= 'f') || ('A' <= c <= 'F')
  }

  /**
   * The value of one hexadecimal digit, either case: below 10 exactly for the
   * decimal digits. `Digit` and `DigitOfNibble` show it is a bijection between
   * the lower-case digits and the sixteen nibble values.
   */
  function Nibble(c: char): (v: bv8)
    requires IsHexDigit(c)
    ensures v < 16
    ensures v < 10 <==> '0' <= c <= '9'
  {
    var n := if c <= '9' then c as int - '0' as int
             else if c <= 'F' then c as int - 'A' as int + 10
             else c as int - 'a' as int + 10;
    n as bv8
  }

  /** One byte from a digit pair: the first digit is its high nibble, the second its low one. */
  function PairByte(hi: char, lo: char): (b: bv8)
    requires IsHexDigit(hi) && IsHexDigit(lo)
    ensures b >> 4 == Nibble(hi) && b & 0xF == Nibble(lo)
  {
    var h, l := Nibble(hi), Nibble(lo);
    assert ((h << 4) | l) >> 4 == h;
    assert ((h << 4) | l) & 0xF == l;
    (h << 4) | l
  }

  predicate AllHexDigits(s: string) {
    forall i :: 0 <= i < |s| ==> IsHexDigit(s[i])
  }

  /**
   * `bytes.fromhex` on text that holds no space, LF, CR or TAB: it succeeds
   * exactly when the length is even and every character is a hex digit, and
   * then digit pair `j` becomes byte `j`.
   */
  function FromHex(s: string): (r: Option<seq<bv8>>)
    ensures r.Some? <==> |s| % 2 == 0 && AllHexDigits(s)
    ensures r.Some? ==> |r.value| == |s| / 2
    decreases |s|
  {
    if |s| == 0 then Some([])
    else if |s| == 1 || !IsHexDigit(s[0]) || !IsHexDigit(s[1]) then None
    else
      match FromHex(s[2..])
      case None =>
        assert !AllHexDigits(s[2..]) ==> !AllHexDigits(s) by {
          if AllHexDigits(s) {
            forall i | 0 <= i < |s| - 2 ensures IsHexDigit(s[2..][i]) {
              assert s[2..][i] == s[i + 2];
            }
          }
        }
        None
      case Some(rest) =>
        assert AllHexDigits(s) by {
          forall i | 0 <= i < |s| ensures IsHexDigit(s[i]) {
            if i >= 2 { assert s[i] == s[2..][i - 2]; }
          }
        }
        Some([PairByte(s[0], s[1])] + rest)
  }

  /** Digit pair `j` of the text is byte `j` of a successful decode. */
  lemma {:induction false} FromHexAt(s: string, j: nat)
    requires FromHex(s).Some? && j < |s| / 2
    ensures IsHexDigit(s[2 * j]) && IsHexDigit(s[2 * j + 1])
    ensures FromHex(s).value[j] == PairByte(s[2 * j], s[2 * j + 1])
    decreases |s|
  {
    if j > 0 {
      FromHexAt(s[2..], j - 1);
      assert s[2..][2 * (j - 1)] == s[2 * j];
      assert s[2..][2 * (j - 1) + 1] == s[2 * j + 1];
    }
  }

  /**
   * `read_keystream_from_string`: clean, then decode. It fails (gives `None`,
   * raises nothing) exactly when the cleaned text has odd length or holds a
   * character outside `[0-9a-fA-F]`; on success it gives half as many bytes as
   * the cleaned text has characters.
   */
  function ParseHex(text: string): (r: Option<seq<bv8>>)
    ensures r.Some? <==> |Clean(text)| % 2 == 0 && AllHexDigits(Clean(text))
    ensures r.Some? ==> |r.value| == |Clean(text)| / 2
  {
    FromHex(Clean(text))
  }

  /** On success, digit pair `j` of the cleaned text is byte `j` of the keystream. */
  lemma ParseHexAt(text: string, j: nat)
    requires ParseHex(text).Some? && j < |Clean(text)| / 2
    ensures var c := Clean(text);
      IsHexDigit(c[2 * j]) && IsHexDigit(c[2 * j + 1]) &&
      ParseHex(text).value[j] == PairByte(c[2 * j], c[2 * j + 1])
  {
    FromHexAt(Clean(text), j);
  }

  /** After cleaning, no space, LF, CR or TAB remains. */
  lemma CleanRemovesWhitespace(text: string)
    ensures forall i :: 0 <= i < |Clean(text)| ==> !IsStripped(Clean(text)[i])
  {
    CleanIsFilter(text);
  }

  /** A space, LF, CR or TAB anywhere in the text does not change the result. */
  lemma ParseHexIgnoresWhitespace(a: string, w: char, b: string)
    requires IsStripped(w)
    ensures ParseHex(a + [w] + b) == ParseHex(a + b)
  {
    CleanAppend(a + [w], b);
    CleanAppend(a, [w]);
    CleanSingle(w);
    CleanAppend(a, b);
    assert Clean(a + [w]) == Clean(a);
  }

  // ---------------------------------------------------------------------------
  // Case-insensitivity
  // ---------------------------------------------------------------------------

  /** ASCII upper-casing of one character; everything else is unchanged. */
  function UpperChar(c: char): char {
    if 'a' <= c <= 'z' then (c as int - 'a' as int + 'A' as int) as char else c
  }

  /** ASCII lower-casing of one character; everything else is unchanged. */
  function LowerChar(c: char): char {
    if 'A' <= c <= 'Z' then (c as int - 'A' as int + 'a' as int) as char else c
  }

  function Upper(s: string): (r: string)
    ensures |r| == |s| && forall i :: 0 <= i < |s| ==> r[i] == UpperChar(s[i])
  {
    seq(|s|, i requires 0 <= i < |s| => UpperChar(s[i]))
  }

  function Lower(s: string): (r: string)
    ensures |r| == |s| && forall i :: 0 <= i < |s| ==> r[i] == LowerChar(s[i])
  {
    seq(|s|, i requires 0 <= i < |s| => LowerChar(s[i]))
  }

  /** Decoding is blind to case: any two texts that agree up to case decode alike. */
  lemma {:induction false} FromHexCaseBlind(s: string, t: string)
    requires |s| == |t|
    requires forall i :: 0 <= i < |s| ==> UpperChar(s[i]) == UpperChar(t[i])
    ensures FromHex(s) == FromHex(t)
    decreases |s|
  {
    if |s| == 1 {
      CaseBlindDigit(s[0], t[0]);
    } else if |s| >= 2 {
      CaseBlindDigit(s[0], t[0]);
      CaseBlindDigit(s[1], t[1]);
      forall i | 0 <= i < |s| - 2
        ensures UpperChar(s[2..][i]) == UpperChar(t[2..][i])
      {
        assert s[2..][i] == s[i + 2] && t[2..][i] == t[i + 2];
      }
      FromHexCaseBlind(s[2..], t[2..]);
    }
  }

  /** Two characters equal up to case are digits together, of the same value. */
  lemma CaseBlindDigit(x: char, y: char)
    requires UpperChar(x) == UpperChar(y)
    ensures IsHexDigit(x) <==> IsHexDigit(y)
    ensures IsHexDigit(x) ==> Nibble(x) == Nibble(y)
  {
  }

  /** Filtering whitespace commutes with upper-casing. */
  lemma {:induction false} FilterUpper(s: string)
    ensures WithoutWhitespace(Upper(s)) == Upper(WithoutWhitespace(s))
  {
    if s != [] {
      assert Upper(s)[1..] == Upper(s[1..]);
      FilterUpper(s[1..]);
    }
  }

  /** Filtering whitespace commutes with lower-casing. */
  lemma {:induction false} FilterLower(s: string)
    ensures WithoutWhitespace(Lower(s)) == Lower(WithoutWhitespace(s))
  {
    if s != [] {
      assert Lower(s)[1..] == Lower(s[1..]);
      FilterLower(s[1..]);
    }
  }

  /** Upper-case or lower-case text gives the same keystream as the original. */
  lemma ParseHexCaseInsensitive(text: string)
    ensures ParseHex(Upper(text)) == ParseHex(text)
    ensures ParseHex(Lower(text)) == ParseHex(text)
  {
    ParseHexUpper(text);
    ParseHexLower(text);
  }

  lemma ParseHexUpper(text: string)
    ensures ParseHex(Upper(text)) == ParseHex(text)
  {
    CleanIsFilter(text);
    CleanIsFilter(Upper(text));
    FilterUpper(text);
    FromHexCaseBlind(Upper(Clean(text)), Clean(text));
  }

  lemma ParseHexLower(text: string)
    ensures ParseHex(Lower(text)) == ParseHex(text)
  {
    CleanIsFilter(text);
    CleanIsFilter(Lower(text));
    FilterLower(text);
    FromHexCaseBlind(Lower(Clean(text)), Clean(text));
  }

  // ---------------------------------------------------------------------------
  // Encoding and the round trip
  // ---------------------------------------------------------------------------

  /** The lower-case digit for a nibble; it reads back as that nibble. */
  function Digit(v: bv8): (c: char)
    requires v < 16
    ensures IsHexDigit(c) && Nibble(c) == v
  {
    if v < 10 then ('0' as int + v as int) as char else ('a' as int + v as int - 10) as char
  }

  /** Two lower-case digits for one byte, high nibble first, zero-padded. */
  function ByteHex(b: bv8): (s: string)
    ensures |s| == 2
  {
    [Digit(b >> 4), Digit(b & 0xF)]
  }

  /**
   * The service's hex form of a keystream: each byte as
   * `toString(16).padStart(2, '0')`, joined without separators.
   */
  function EncodeHex(bs: seq<bv8>): (s: string)
    ensures |s| == 2 * |bs|
    ensures forall i :: 0 <= i < |s| ==> IsHexDigit(s[i]) && !('A' <= s[i] <= 'F')
  {
    if bs == [] then []
    else
      var head, rest := ByteHex(bs[0]), EncodeHex(bs[1..]);
      assert forall i :: 2 <= i < |head + rest| ==> (head + rest)[i] == rest[i - 2];
      head + rest
  }

  /** Characters `2j` and `2j + 1` of the encoding are the digit pair of byte `j`. */
  lemma {:induction false} EncodeHexAt(bs: seq<bv8>, j: nat)
    requires j < |bs|
    ensures PairByte(EncodeHex(bs)[2 * j], EncodeHex(bs)[2 * j + 1]) == bs[j]
  {
    ByteHexRoundTrip(bs[0]);
    if j > 0 {
      EncodeHexAt(bs[1..], j - 1);
      assert EncodeHex(bs)[2 * j] == EncodeHex(bs[1..])[2 * (j - 1)];
      assert EncodeHex(bs)[2 * j + 1] == EncodeHex(bs[1..])[2 * (j - 1) + 1];
    }
  }

  /** The two digits of a byte decode back to that byte. */
  lemma ByteHexRoundTrip(b: bv8)
    ensures IsHexDigit(ByteHex(b)[0]) && IsHexDigit(ByteHex(b)[1])
    ensures PairByte(ByteHex(b)[0], ByteHex(b)[1]) == b
  {
  }

  /** The digit for a digit's value is that digit lower-cased. */
  lemma DigitOfNibble(c: char)
    requires IsHexDigit(c)
    ensures Digit(Nibble(c)) == LowerChar(c)
  {
  }

  /** Re-encoding a decoded pair gives the pair lower-cased. */
  lemma PairByteHex(hi: char, lo: char)
    requires IsHexDigit(hi) && IsHexDigit(lo)
    ensures ByteHex(PairByte(hi, lo)) == [LowerChar(hi), LowerChar(lo)]
  {
    DigitOfNibble(hi);
    DigitOfNibble(lo);
  }

  /** Decoding undoes encoding. */
  lemma {:induction false} FromHexEncodeHex(bs: seq<bv8>)
    ensures FromHex(EncodeHex(bs)) == Some(bs)
  {
    if bs != [] {
      var s := EncodeHex(bs);
      ByteHexRoundTrip(bs[0]);
      assert s[2..] == EncodeHex(bs[1..]);
      FromHexEncodeHex(bs[1..]);
      assert [bs[0]] + bs[1..] == bs;
    }
  }

  /** The service's lower-case hex parses back to the very same keystream. */
  lemma ParseHexEncodeHex(bs: seq<bv8>)
    ensures ParseHex(EncodeHex(bs)) == Some(bs)
  {
    CleanIdentity(EncodeHex(bs));
    FromHexEncodeHex(bs);
  }

  /**
   * The converse round trip: a parse that succeeds re-encodes to the cleaned
   * text in lower case, so the lower-case encoding is the canonical form.
   */
  lemma {:induction false} EncodeHexFromHex(s: string)
    requires FromHex(s).Some?
    ensures EncodeHex(FromHex(s).value) == Lower(s)
    decreases |s|
  {
    if s != [] {
      var bs := FromHex(s).value;
      PairByteHex(s[0], s[1]);
      assert bs[0] == PairByte(s[0], s[1]);
      assert EncodeHex(bs) == [LowerChar(s[0]), LowerChar(s[1])] + EncodeHex(bs[1..]);
      EncodeHexFromHex(s[2..]);
      assert Lower(s) == [LowerChar(s[0]), LowerChar(s[1])] + Lower(s[2..]);
    }
  }

  /** A successful parse of any text re-encodes to its cleaned text, lower-cased. */
  lemma ParseHexCanonical(text: string)
    requires ParseHex(text).Some?
    ensures EncodeHex(ParseHex(text).value) == Lower(Clean(text))
  {
    EncodeHexFromHex(Clean(text));
  }

  // ---------------------------------------------------------------------------
  // The file variant: `.strip()` before the replace chain
  // ---------------------------------------------------------------------------

  /**
   * Python's `str.isspace` on one character. The four characters the replace
   * chain deletes are among them, and no hex digit is.
   */
  predicate IsPySpace(c: char): (b: bool)
    ensures IsStripped(c) ==> b
    ensures b ==> !IsHexDigit(c)
  {
    var n := c as int;
    (0x09 <= n <= 0x0D) || (0x1C <= n <= 0x20) || n == 0x85 || n == 0xA0 ||
    n == 0x1680 || (0x2000 <= n <= 0x200A) || n == 0x2028 || n == 0x2029 ||
    n == 0x202F || n == 0x205F || n == 0x3000
  }

  /** The scan from the front: the first index from `i` on that is not whitespace. */
  function StripStart(s: string, i: nat): (lo: nat)
    requires i <= |s|
    ensures i <= lo <= |s|
    ensures forall k :: i <= k < lo ==> IsPySpace(s[k])
    ensures lo == |s| || !IsPySpace(s[lo])
    decreases |s| - i
  {
    if i < |s| && IsPySpace(s[i]) then StripStart(s, i + 1) else i
  }

  /** The scan from the back, down to `lo`: the end just after the last non-whitespace. */
  function StripEnd(s: string, lo: nat, j: nat): (hi: nat)
    requires lo <= j <= |s|
    ensures lo <= hi <= j
    ensures forall k :: hi <= k < j ==> IsPySpace(s[k])
    ensures hi == lo || !IsPySpace(s[hi - 1])
  {
    if j > lo && IsPySpace(s[j - 1]) then StripEnd(s, lo, j - 1) else j
  }

  /** Cutting `s` down to `s[lo..hi]` removes nothing but Python whitespace. */
  predicate CutsOnlySpace(s: string, lo: int, hi: int) {
    && 0 <= lo <= hi <= |s|
    && (forall i :: 0 <= i < lo ==> IsPySpace(s[i]))
    && (forall i :: hi <= i < |s| ==> IsPySpace(s[i]))
  }

  /**
   * `s[lo..hi]` is what `strip()` keeps: only whitespace is cut, and all of it
   * at both ends, since the kept part neither starts nor ends with whitespace.
   */
  predicate StripBounds(s: string, lo: int, hi: int) {
    && CutsOnlySpace(s, lo, hi)
    && (lo == hi || (!IsPySpace(s[lo]) && !IsPySpace(s[hi - 1])))
  }

  /** There is one way to strip a text: any two such cuts keep the same part. */
  lemma StripBoundsUnique(s: string, lo: int, hi: int, lo': int, hi': int)
    requires StripBounds(s, lo, hi) && StripBounds(s, lo', hi')
    ensures s[lo..hi] == s[lo'..hi']
  {
    if lo < hi && lo' < hi' {
      assert !IsPySpace(s[lo]) && !IsPySpace(s[lo']);
      assert !IsPySpace(s[hi - 1]) && !IsPySpace(s[hi' - 1]);
    }
  }

  /**
   * `str.strip()`: the contiguous middle part of the text that is left once
   * all Python whitespace is cut from both ends.
   */
  function PyStrip(s: string): (r: string)
    ensures exists lo, hi :: StripBounds(s, lo, hi) && r == s[lo..hi]
    ensures r == [] || (!IsPySpace(r[0]) && !IsPySpace(r[|r| - 1]))
  {
    var lo := StripStart(s, 0);
    var hi := StripEnd(s, lo, |s|);
    assert StripBounds(s, lo, hi);
    s[lo..hi]
  }

  /**
   * `read_keystream_from_file` once the file's text has been read: the parse
   * of the text with all Python whitespace trimmed from its ends.
   */
  function ReadKeystreamText(contents: string): (r: Option<seq<bv8>>)
    ensures exists lo, hi :: StripBounds(contents, lo, hi) && r == ParseHex(contents[lo..hi])
  {
    ParseHex(PyStrip(contents))
  }

  lemma Split3(s: string, lo: nat, hi: nat)
    requires lo <= hi <= |s|
    ensures s == s[..lo] + s[lo..hi] + s[hi..]
  {
  }

  lemma CleanSurround(pre: string, mid: string, post: string)
    requires Clean(pre) == [] && Clean(post) == []
    ensures Clean(pre + mid + post) == Clean(mid)
  {
    CleanAppend(pre + mid, post);
    CleanAppend(pre, mid);
    assert [] + Clean(mid) + [] == Clean(mid);
  }

  /**
   * When the only Python whitespace in the file is space, LF, CR or TAB, the
   * extra `strip()` of the file variant makes no difference.
   */
  lemma ReadKeystreamTextAgrees(contents: string)
    requires forall i :: 0 <= i < |contents| && IsPySpace(contents[i]) ==> IsStripped(contents[i])
    ensures ReadKeystreamText(contents) == ParseHex(contents)
  {
    var r := PyStrip(contents);
    var lo, hi :| StripBounds(contents, lo, hi) && r == contents[lo..hi];
    Split3(contents, lo, hi);
    CutWhitespaceCleansAway(contents, lo, hi);
    CleanSurround(contents[..lo], r, contents[hi..]);
  }

  lemma CutWhitespaceCleansAway(s: string, lo: int, hi: int)
    requires CutsOnlySpace(s, lo, hi)
    requires forall i :: 0 <= i < |s| && IsPySpace(s[i]) ==> IsStripped(s[i])
    ensures Clean(s[..lo]) == [] && Clean(s[hi..]) == []
  {
    var pre, post := s[..lo], s[hi..];
    forall i | 0 <= i < |pre| ensures IsStripped(pre[i]) {
      assert pre[i] == s[i];
    }
    forall i | 0 <= i < |post| ensures IsStripped(post[i]) {
      assert post[i] == s[hi + i];
    }
    CleanAllWhitespace(pre);
    CleanAllWhitespace(post);
  }

  /** The front scan over text with a whitespace character appended. */
  lemma {:induction false} StripStartSnoc(a: string, f: char, i: nat)
    requires IsPySpace(f) && i <= |a|
    ensures StripStart(a + [f], i) == if StripStart(a, i) == |a| then |a| + 1 else StripStart(a, i)
    decreases |a| - i
  {
    var t := a + [f];
    if i < |a| {
      assert t[i] == a[i];
      if IsPySpace(a[i]) {
        StripStartSnoc(a, f, i + 1);
      }
    } else {
      assert t[i] == f;
      assert StripStart(t, i) == StripStart(t, i + 1);
    }
  }

  /** The back scan does not look past its start: on a common prefix it agrees. */
  lemma {:induction false} StripEndPrefix(a: string, t: string, lo: nat, j: nat)
    requires lo <= j <= |a| <= |t| && a == t[..|a|]
    ensures StripEnd(t, lo, j) == StripEnd(a, lo, j)
    decreases j
  {
    if j > lo {
      assert t[j - 1] == a[j - 1];
      StripEndPrefix(a, t, lo, j - 1);
    }
  }

  /** Both scans of `strip()` over text with a whitespace character appended. */
  lemma SnocScans(a: string, f: char)
    requires IsPySpace(f)
    ensures var lo := StripStart(a, 0);
      if lo == |a| then StripStart(a + [f], 0) == |a| + 1
      else StripStart(a + [f], 0) == lo && StripEnd(a + [f], lo, |a| + 1) == StripEnd(a, lo, |a|)
  {
    var t := a + [f];
    StripStartSnoc(a, f, 0);
    var lo := StripStart(a, 0);
    if lo < |a| {
      assert t[|t| - 1] == f;
      assert StripEnd(t, lo, |t|) == StripEnd(t, lo, |a|);
      assert a == t[..|a|];
      StripEndPrefix(a, t, lo, |a|);
    }
  }

  /** A trailing Python whitespace character does not survive `strip()`. */
  lemma PyStripSnoc(a: string, f: char)
    requires IsPySpace(f)
    ensures PyStrip(a + [f]) == PyStrip(a)
  {
    var t := a + [f];
    SnocScans(a, f);
    PyStripScans(a);
    PyStripScans(t);
    var lo := StripStart(a, 0);
    if lo < |a| {
      var hi := StripEnd(a, lo, |a|);
      assert t[lo..hi] == a[lo..hi];
    }
  }

  lemma PyStripScans(s: string)
    ensures var lo := StripStart(s, 0); PyStrip(s) == s[lo..StripEnd(s, lo, |s|)]
  {
  }

  /** A stray non-hex, non-whitespace character anywhere makes the parse fail. */
  lemma ParseHexRejectsStray(a: string, x: char, b: string)
    requires !IsStripped(x) && !IsHexDigit(x)
    ensures ParseHex(a + [x] + b) == None
  {
    CleanAppend(a + [x], b);
    CleanAppend(a, [x]);
    CleanSingle(x);
    var c := Clean(a + [x] + b);
    assert c[|Clean(a)|] == x;
  }

  /**
   * The two loaders differ on non-ASCII whitespace at the end: a trailing
   * no-break space (U+00A0) is stripped from a file before decoding, but
   * makes the same text fail when it is passed as a string.
   */
  lemma NoBreakSpaceDifference(a: string)
    ensures ReadKeystreamText(a + ['\U{00A0}']) == ReadKeystreamText(a)
    ensures ParseHex(a + ['\U{00A0}']) == None
  {
    PyStripSnoc(a, '\U{00A0}');
    ParseHexRejectsStray(a, '\U{00A0}', []);
    assert a + ['\U{00A0}'] + [] == a + ['\U{00A0}'];
  }

  // ---------------------------------------------------------------------------
  // Examples of `read_keystream_from_string`
  // ---------------------------------------------------------------------------

  /** Pairs split by a space, a line break and a tab, in mixed case, are accepted. */
  lemma ExampleAccepted()
    ensures ParseHex("0a 1b\n2c\t3D") == Some([0x0a, 0x1b, 0x2c, 0x3d])
  {
    ExampleWhitespaceDropped();
    ExampleWithoutWhitespace();
    ExampleDecoded();
  }

  lemma ExampleWithoutWhitespace()
    ensures ParseHex("0a1b2c3D") == FromHex("0a1b2c3D")
  {
    CleanIdentity("0a1b2c3D");
  }

  lemma ExampleWhitespaceDropped()
    ensures ParseHex("0a 1b\n2c\t3D") == ParseHex("0a1b2c3D")
  {
    var a, b, c, d := "0a", "1b", "2c", "3D";
    assert "0a 1b\n2c\t3D" == a + [' '] + (b + ['\n'] + c + ['\t'] + d);
    ParseHexIgnoresWhitespace(a, ' ', b + ['\n'] + c + ['\t'] + d);
    assert a + (b + ['\n'] + c + ['\t'] + d) == (a + b) + ['\n'] + (c + ['\t'] + d);
    ParseHexIgnoresWhitespace(a + b, '\n', c + ['\t'] + d);
    assert (a + b) + (c + ['\t'] + d) == (a + b + c) + ['\t'] + d;
    ParseHexIgnoresWhitespace(a + b + c, '\t', d);
    assert a + b + c + d == "0a1b2c3D";
  }

  lemma ExampleDecoded()
    ensures FromHex("0a1b2c3D") == Some([0x0a, 0x1b, 0x2c, 0x3d])
  {
    var s1 := ['1', 'b', '2', 'c', '3', 'D'];
    ExampleDecodedTail();
    assert s1 == ['1', 'b'] + "2c3D";
    FromHexPrepend('1', 'b', "2c3D", [0x2c, 0x3d]);
    assert [PairByte('1', 'b')] + [0x2c, 0x3d] == [0x1b, 0x2c, 0x3d];
    FromHexPrepend('0', 'a', s1, [0x1b, 0x2c, 0x3d]);
    assert "0a1b2c3D" == ['0', 'a'] + s1;
    assert [PairByte('0', 'a')] + [0x1b, 0x2c, 0x3d] == [0x0a, 0x1b, 0x2c, 0x3d];
  }

  lemma ExampleDecodedTail()
    ensures FromHex("2c3D") == Some([0x2c, 0x3d])
  {
    var s3 := ['3', 'D'];
    FromHexPrepend('3', 'D', [], []);
    assert s3 == ['3', 'D'] + [] && [PairByte('3', 'D')] + [] == [0x3d];
    FromHexPrepend('2', 'c', s3, [0x3d]);
    assert "2c3D" == ['2', 'c'] + s3;
    assert [PairByte('2', 'c')] + [0x3d] == [0x2c, 0x3d];
  }

  /** Decoding a text that starts with a digit pair: that pair's byte, then the rest's bytes. */
  lemma FromHexPrepend(hi: char, lo: char, rest: string, bs: seq<bv8>)
    requires IsHexDigit(hi) && IsHexDigit(lo) && FromHex(rest) == Some(bs)
    ensures FromHex([hi, lo] + rest) == Some([PairByte(hi, lo)] + bs)
  {
    assert ([hi, lo] + rest)[2..] == rest;
  }

  /** Odd length is rejected. */
  lemma ExampleOddLength()
    ensures ParseHex("0a1") == None
  {
    CleanIdentity("0a1");
  }

  /** A character outside the hex alphabet is rejected. */
  lemma ExampleNonHex()
    ensures ParseHex("zz11") == None
  {
    CleanIdentity("zz11");
    assert !IsHexDigit("zz11"[0]);
  }
}
