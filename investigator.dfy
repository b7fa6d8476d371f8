/**
 * The decoding helpers of the command-line investigator ble_investigator_app.py: the
 * hexadecimal byte check, the comma-separated byte list that `write` parses, the tuple
 * printer `strip_tuple` and the decoding modes of `decode_data`.
 */
module Investigator {
  import opened Wrappers
  import opened Bytes
  import opened Seqs

  // ---------------------------------------------------------------------------------------
  // Characters and stripping

  /** The ASCII characters Python's `str.isspace` accepts (its Unicode spaces are not modelled). */
  const Whitespace: set<char> :=
    {' ', '\t', '\n', '\r', '\U{0B}', '\U{0C}', '\U{1C}', '\U{1D}', '\U{1E}', '\U{1F}'}

  /** `s.lstrip(chars)` for the character set `drop`. */
  function StripLeft(s: string, drop: set<char>): (r: string)
    ensures |r| <= |s|
  {
    if s != [] && s[0] in drop then StripLeft(s[1..], drop) else s
  }

  /** `s.rstrip(chars)` for the character set `drop`. */
  function StripRight(s: string, drop: set<char>): (r: string)
    ensures |r| <= |s|
  {
    if s != [] && s[|s| - 1] in drop then StripRight(s[..|s| - 1], drop) else s
  }

  /** `s.strip(chars)`: both ends. */
  function Strip(s: string, drop: set<char>): string {
    StripRight(StripLeft(s, drop), drop)
  }

  /** `s.strip()` with no argument strips whitespace. */
  function StripSpace(s: string): string {
    Strip(s, Whitespace)
  }

  /** Stripping leaves a string alone when neither end is strippable, and removes strippable padding. */
  lemma {:induction false} StripPadding(pre: string, s: string, post: string, drop: set<char>)
    requires s != [] && s[0] !in drop && s[|s| - 1] !in drop
    requires forall k :: 0 <= k < |pre| ==> pre[k] in drop
    requires forall k :: 0 <= k < |post| ==> post[k] in drop
    ensures Strip(pre + s + post, drop) == s
  {
    assert pre + s + post == pre + (s + post);
    assert (s + post)[0] == s[0];
    StripLeftPadding(pre, s + post, drop);
    StripRightPadding(s, post, drop);
  }

  lemma {:induction false} StripLeftPadding(pre: string, s: string, drop: set<char>)
    requires s != [] && s[0] !in drop
    requires forall k :: 0 <= k < |pre| ==> pre[k] in drop
    ensures StripLeft(pre + s, drop) == s
    decreases |pre|
  {
    if pre != [] {
      assert (pre + s)[1..] == pre[1..] + s;
      StripLeftPadding(pre[1..], s, drop);
    } else {
      assert pre + s == s;
    }
  }

  lemma {:induction false} StripRightPadding(s: string, post: string, drop: set<char>)
    requires s != [] && s[|s| - 1] !in drop
    requires forall k :: 0 <= k < |post| ==> post[k] in drop
    ensures StripRight(s + post, drop) == s
    decreases |post|
  {
    if post != [] {
      assert (s + post)[..|s + post| - 1] == s + post[..|post| - 1];
      StripRightPadding(s, post[..|post| - 1], drop);
    } else {
      assert s + post == s;
    }
  }

  // ---------------------------------------------------------------------------------------
  // is_byte: int(text, 16) over an explicit grammar

  predicate IsHexDigit(c: char) {
    ('0' <= c <= '9') || ('a' <= c <= 'f') || ('A' <= c <= 'F')
  }

  function HexDigitValue(c: char): (v: nat)
    requires IsHexDigit(c)
    ensures v < 16
  {
    if '0' <= c <= '9' then c as int - '0' as int
    else if 'a' <= c <= 'f' then c as int - 'a' as int + 10
    else c as int - 'A' as int + 10
  }

  predicate AllHexDigits(s: string) {
    forall k :: 0 <= k < |s| ==> IsHexDigit(s[k])
  }

  /** The value of a string of hexadecimal digits, most significant first. */
  function HexValue(s: string): (v: nat)
    requires AllHexDigits(s)
  {
    if s == [] then 0 else HexValue(s[..|s| - 1]) * 16 + HexDigitValue(s[|s| - 1])
  }

  /**
   * `int(text, 16)`: surrounding whitespace, an optional sign, an optional `0x`/`0X` prefix and
   * at least one hexadecimal digit; anything else is a ValueError, here `None`.
   */
  function ParseHexInt(text: string): (r: Option<int>)
    ensures r.Some? ==> StripSpace(text) != []
    ensures StripSpace(text) != [] && AllHexDigits(StripSpace(text)) ==>
              r == Some(HexValue(StripSpace(text)) as int)
    ensures r.Some? && r.value < 0 ==> StripSpace(text)[0] == '-'
  {
    var t := StripSpace(text);
    if t != [] && AllHexDigits(t) then
      ParseBareDigits(t);
      ParseHexBody(t)
    else
      ParseHexBody(t)
  }

  /** The grammar of `int(t, 16)` once the whitespace is stripped. */
  function ParseHexBody(t: string): Option<int>
  {
    var negative := |t| > 0 && t[0] == '-';
    var unsigned := if |t| > 0 && (t[0] == '-' || t[0] == '+') then t[1..] else t;
    var digits := if |unsigned| >= 2 && unsigned[0] == '0' && (unsigned[1] == 'x' || unsigned[1] == 'X')
                  then unsigned[2..] else unsigned;
    if digits == [] || !AllHexDigits(digits) then None
    else Some(if negative then -(HexValue(digits) as int) else HexValue(digits) as int)
  }

  /** `is_byte(text)`: parses as a base-16 integer and lies in 0 .. 0xFF. */
  function IsByte(text: string): (r: bool)
    ensures r <==> ParseHexInt(text).Some? && 0 <= ParseHexInt(text).value <= 255
  {
    match ParseHexInt(text)
    case None => false
    case Some(value) => 0 <= value <= 0xFF
  }

  /** The upper-case hexadecimal digit of `d`. */
  function HexDigit(d: nat): (c: char)
    requires d < 16
    ensures IsHexDigit(c) && HexDigitValue(c) == d
  {
    if d < 10 then ('0' as int + d) as char else ('A' as int + d - 10) as char
  }

  /** The hexadecimal digits of `n`, without leading zeros. */
  function FormatHex(n: nat): (s: string)
    ensures s != [] && AllHexDigits(s)
  {
    if n < 16 then [HexDigit(n)] else FormatHex(n / 16) + [HexDigit(n % 16)]
  }

  lemma {:induction false} HexValueOfFormatHex(n: nat)
    ensures HexValue(FormatHex(n)) == n
  {
    var s := FormatHex(n);
    if n >= 16 {
      assert s[..|s| - 1] == FormatHex(n / 16);
      HexValueOfFormatHex(n / 16);
    } else {
      assert s[..0] == [];
    }
  }

  /** Hexadecimal digits, with or without `0x`, parse to their value. */
  lemma ParseHexBodyOfFormatHex(n: nat, prefix: string)
    requires prefix == "" || prefix == "0x" || prefix == "0X"
    ensures ParseHexBody(prefix + FormatHex(n)) == Some(n)
  {
    var d := FormatHex(n);
    HexValueOfFormatHex(n);
    if prefix == "" {
      ParseBareDigits(d);
      assert prefix + d == d;
    } else {
      ParsePrefixedDigits(prefix, d);
    }
  }

  lemma ParseBareDigits(d: string)
    requires d != [] && AllHexDigits(d)
    ensures ParseHexBody(d) == Some(HexValue(d) as int)
  {
    assert IsHexDigit(d[0]);
    if |d| >= 2 {
      assert IsHexDigit(d[1]);
    }
  }

  lemma ParsePrefixedDigits(prefix: string, d: string)
    requires prefix == "0x" || prefix == "0X"
    requires d != [] && AllHexDigits(d)
    ensures ParseHexBody(prefix + d) == Some(HexValue(d) as int)
  {
    var t := prefix + d;
    assert t[0] == '0' && t[1] == prefix[1];
    assert t[2..] == d;
  }

  /** Any non-negative number written in hexadecimal, with or without `0x` and padding, parses back. */
  lemma ParseFormattedHex(n: nat, prefix: string, pre: string, post: string)
    requires prefix == "" || prefix == "0x" || prefix == "0X"
    requires forall k :: 0 <= k < |pre| ==> pre[k] in Whitespace
    requires forall k :: 0 <= k < |post| ==> post[k] in Whitespace
    ensures ParseHexInt(pre + prefix + FormatHex(n) + post) == Some(n)
  {
    ConcatAssoc(pre, prefix, FormatHex(n), post);
    ParsePaddedHex(n, prefix, prefix + FormatHex(n), pre, post);
  }

  lemma ConcatAssoc(a: string, b: string, c: string, d: string)
    ensures a + b + c + d == a + (b + c) + d
  {
  }

  lemma ParsePaddedHex(n: nat, prefix: string, s: string, pre: string, post: string)
    requires prefix == "" || prefix == "0x" || prefix == "0X"
    requires s == prefix + FormatHex(n)
    requires forall k :: 0 <= k < |pre| ==> pre[k] in Whitespace
    requires forall k :: 0 <= k < |post| ==> post[k] in Whitespace
    ensures ParseHexInt(pre + s + post) == Some(n)
  {
    HexTextEnds(prefix, FormatHex(n));
    StripPadding(pre, s, post, Whitespace);
    ParseHexBodyOfFormatHex(n, prefix);
  }

  /** Hexadecimal digits after an optional `0x` neither start nor end with whitespace. */
  lemma HexTextEnds(prefix: string, d: string)
    requires prefix == "" || prefix == "0x" || prefix == "0X"
    requires d != [] && AllHexDigits(d)
    ensures var s := prefix + d; s != [] && s[0] !in Whitespace && s[|s| - 1] !in Whitespace
  {
    var s := prefix + d;
    HexDigitNotSpace(d[0]);
    HexDigitNotSpace(d[|d| - 1]);
    assert s[|s| - 1] == d[|d| - 1];
    if prefix != "" {
      assert s[0] == '0';
    }
  }

  /** `is_byte` accepts exactly the numbers 0 .. 255 written in hexadecimal. */
  lemma IsByteFormatHex(n: nat)
    ensures IsByte("0x" + FormatHex(n)) <==> n <= 255
    ensures IsByte(FormatHex(n)) <==> n <= 255
  {
    var d := FormatHex(n);
    UnpaddedHex(n, "0x");
    IsByteOfValue("0x" + d, n);
    UnpaddedHex(n, "");
    assert "" + d == d;
    IsByteOfValue(d, n);
  }

  /** Hexadecimal digits with no padding parse to their value. */
  lemma UnpaddedHex(n: nat, prefix: string)
    requires prefix == "" || prefix == "0x" || prefix == "0X"
    ensures ParseHexInt(prefix + FormatHex(n)) == Some(n)
  {
    var none: string := "";
    var t := prefix + FormatHex(n);
    ParsePaddedHex(n, prefix, t, none, none);
    NoPadding(t);
  }

  lemma NoPadding(t: string)
    ensures "" + t + "" == t
  {
  }

  /** Text that parses to a number is a byte exactly when the number is at most 255. */
  lemma IsByteOfValue(text: string, n: nat)
    requires ParseHexInt(text) == Some(n)
    ensures IsByte(text) <==> n <= 255
  {
  }

  lemma HexDigitNotSpace(c: char)
    requires IsHexDigit(c)
    ensures c !in Whitespace
  {
  }

  /** The first or last character of a printed integer is not a parenthesis or a comma. */
  lemma NumeralNotParen(c: char)
    requires c == '-' || '0' <= c <= '9'
    ensures c !in ParensAndComma && c !in Parens
  {
  }

  /** Text with no whitespace at either end is left alone by `strip()`. */
  lemma UnpaddedStripSpace(s: string)
    requires s != [] && s[0] !in Whitespace && s[|s| - 1] !in Whitespace
    ensures StripSpace(s) == s
  {
    var empty: string := "";
    StripPadding(empty, s, empty, Whitespace);
    assert empty + s + empty == s;
  }

  /** Text that is not hexadecimal, or a negative number, is not a byte. */
  lemma NonBytes()
    ensures !IsByte("") && !IsByte("0x") && !IsByte("zz") && !IsByte("-1") && !IsByte("100")
  {
    EmptyNotByte();
    PrefixNotByte();
    NonHexNotByte();
    NegativeNotByte();
    LargeNotByte();
  }

  lemma EmptyNotByte()
    ensures !IsByte("")
  {
    assert StripSpace("") == "";
  }

  lemma PrefixNotByte()
    ensures !IsByte("0x")
  {
    assert StripSpace("0x") == "0x";
  }

  lemma NonHexNotByte()
    ensures !IsByte("zz")
  {
    assert StripSpace("zz") == "zz";
    assert !IsHexDigit('z');
  }

  lemma NegativeNotByte()
    ensures !IsByte("-1")
  {
    assert StripSpace("-1") == "-1";
    assert "-1"[1..] == "1";
    assert HexValue("1") == 1 by { assert "1"[..0] == []; }
  }

  lemma LargeNotByte()
    ensures !IsByte("100")
  {
    assert StripSpace("100") == "100";
    assert "100"[..2] == "10" && "10"[..1] == "1" && "1"[..0] == [];
  }

  // ---------------------------------------------------------------------------------------
  // The byte list of `write`

  /** `s.split(sep)`: the pieces between separators; always at least one piece. */
  function Split(s: string, sep: char): (r: seq<string>)
    ensures |r| >= 1
    ensures forall k :: 0 <= k < |r| ==> sep !in r[k]
    decreases |s|
  {
    if sep !in s then [s]
    else
      var i := IndexOf(s, sep);
      [s[..i]] + Split(s[i + 1..], sep)
  }

  /** `sep.join(pieces)` */
  function JoinWith(pieces: seq<string>, sep: string): string
    requires |pieces| >= 1
  {
    if |pieces| == 1 then pieces[0] else pieces[0] + sep + JoinWith(pieces[1..], sep)
  }

  /** Splitting and joining with the same separator gives the text back. */
  lemma {:induction false} JoinSplit(s: string, sep: char)
    ensures JoinWith(Split(s, sep), [sep]) == s
    decreases |s|
  {
    if sep in s {
      var i := IndexOf(s, sep);
      var rest := Split(s[i + 1..], sep);
      var pieces := Split(s, sep);
      assert pieces == [s[..i]] + rest;
      assert |pieces| > 1 && pieces[0] == s[..i] && pieces[1..] == rest;
      JoinSplit(s[i + 1..], sep);
      assert JoinWith(pieces, [sep]) == s[..i] + [sep] + JoinWith(rest, [sep]);
      assert s == s[..i] + [sep] + s[i + 1..];
    }
  }

  /** Joining pieces free of the separator and splitting again gives the pieces back. */
  lemma {:induction false} SplitJoin(pieces: seq<string>, sep: char)
    requires |pieces| >= 1
    requires forall k :: 0 <= k < |pieces| ==> sep !in pieces[k]
    ensures Split(JoinWith(pieces, [sep]), sep) == pieces
  {
    if |pieces| > 1 {
      var rest := JoinWith(pieces[1..], [sep]);
      SplitAtFirst(pieces[0], sep, rest);
      SplitJoin(pieces[1..], sep);
      assert pieces == [pieces[0]] + pieces[1..];
    }
  }

  /** The first separator ends the first piece. */
  lemma SplitAtFirst(a: string, sep: char, b: string)
    requires sep !in a
    ensures Split(a + [sep] + b, sep) == [a] + Split(b, sep)
  {
    var s := a + [sep] + b;
    assert s[|a|] == sep;
    var i := IndexOf(s, sep);
    assert i == |a| by {
      assert forall k :: 0 <= k < |a| ==> s[k] == a[k];
    }
    assert s[..|a|] == a;
    assert s[|a| + 1..] == b;
  }

  /** `[b.strip() for b in byte_string.split(",")]` */
  function Pieces(byteString: string): (r: seq<string>)
    ensures |r| == |Split(byteString, ',')|
  {
    var parts := Split(byteString, ',');
    seq(|parts|, k requires 0 <= k < |parts| => StripSpace(parts[k]))
  }

  /** The value of one piece when `is_byte` accepts it, and nothing otherwise. */
  function PieceValue(p: string): (r: seq<byte>)
    ensures IsByte(p) ==> r == [ParseHexInt(p).value as byte]
    ensures !IsByte(p) ==> r == []
  {
    if IsByte(p) then [ParseHexInt(p).value as byte] else []
  }

  /** The values of the accepted pieces, in input order. */
  function AcceptedValues(pieces: seq<string>): (r: seq<byte>)
  {
    if pieces == [] then [] else PieceValue(pieces[0]) + AcceptedValues(pieces[1..])
  }

  lemma {:induction false} AcceptedValuesAppend(pieces: seq<string>, p: string)
    ensures AcceptedValues(pieces + [p]) == AcceptedValues(pieces) + PieceValue(p)
  {
    if pieces != [] {
      assert (pieces + [p])[1..] == pieces[1..] + [p];
      AcceptedValuesAppend(pieces[1..], p);
    } else {
      assert [] + [p] == [p];
    }
  }

  /** Every piece is accepted by `is_byte`. */
  predicate AllBytes(pieces: seq<string>) {
    forall k :: 0 <= k < |pieces| ==> IsByte(pieces[k])
  }

  lemma AllBytesAppend(pieces: seq<string>, p: string)
    ensures AllBytes(pieces + [p]) <==> AllBytes(pieces) && IsByte(p)
  {
    assert forall k :: 0 <= k < |pieces| ==> (pieces + [p])[k] == pieces[k];
    assert (pieces + [p])[|pieces|] == p;
  }

  /** One more piece of the loop: its value is appended, and it must be a byte as well. */
  lemma ParseStep(pieces: seq<string>, i: nat)
    requires i < |pieces|
    ensures AcceptedValues(pieces[..i + 1]) == AcceptedValues(pieces[..i]) + PieceValue(pieces[i])
    ensures AllBytes(pieces[..i + 1]) <==> AllBytes(pieces[..i]) && IsByte(pieces[i])
  {
    assert pieces[..i + 1] == pieces[..i] + [pieces[i]];
    AcceptedValuesAppend(pieces[..i], pieces[i]);
    AllBytesAppend(pieces[..i], pieces[i]);
  }

  /**
   * The parse loop of `write(...)`: the collected byte values, the flag set by any rejected
   * piece, and what is written (nothing when the flag is set).
   */
  method ParseByteString(byteString: string) returns (byteValues: seq<byte>, notByteFlag: bool, written: Option<seq<byte>>)
    ensures byteValues == AcceptedValues(Pieces(byteString))
    ensures notByteFlag <==> !AllBytes(Pieces(byteString))
    ensures written == if notByteFlag then None else Some(byteValues)
  {
    var byteStrings := Pieces(byteString);
    byteValues := [];
    notByteFlag := false;
    for i := 0 to |byteStrings|
      invariant byteValues == AcceptedValues(byteStrings[..i])
      invariant notByteFlag <==> !AllBytes(byteStrings[..i])
    {
      var piece := byteStrings[i];
      ParseStep(byteStrings, i);
      var b := IsByte(piece);
      if b {
        var value := ParseHexInt(piece).value;
        byteValues := byteValues + [value as byte];
        assert PieceValue(piece) == [value as byte];
      } else {
        notByteFlag := true;
      }
    }
    assert byteStrings[..|byteStrings|] == byteStrings;
    written := if notByteFlag then None else Some(byteValues);
  }

  /** `"0x%02X" % b`: the form the prompt asks for. */
  function FormatByte(b: byte): (s: string)
    ensures |s| == 4
  {
    "0x" + [HexDigit(b / 16), HexDigit(b % 16)]
  }

  lemma FormatByteParses(b: byte, pre: string, post: string)
    requires forall k :: 0 <= k < |pre| ==> pre[k] in Whitespace
    requires forall k :: 0 <= k < |post| ==> post[k] in Whitespace
    ensures ParseHexInt(pre + FormatByte(b) + post) == Some(b as int)
  {
    var s := FormatByte(b);
    var hi, lo := HexDigit(b / 16), HexDigit(b % 16);
    assert s == ['0', 'x', hi, lo];
    StripPadding(pre, s, post, Whitespace);
    var digits := [hi, lo];
    assert s[2..] == digits && AllHexDigits(digits);
    assert digits[..1] == [hi] && [hi][..0] == [];
    assert HexValue([hi]) == b / 16;
    assert HexValue(digits) == (b / 16) * 16 + b % 16;
    assert ParseHexBody(s) == Some(b as int);
  }

  /** The pieces of "0xXX, 0xXX, ...": every byte after the first is preceded by a space. */
  function PromptPieces(bs: seq<byte>): (r: seq<string>)
    ensures |r| == |bs|
  {
    seq(|bs|, k requires 0 <= k < |bs| => (if k == 0 then "" else " ") + FormatByte(bs[k]))
  }

  /** The bytes formatted as "0xXX, 0xXX, ...", the form the prompt asks for. */
  function FormatByteString(bs: seq<byte>): string
    requires |bs| >= 1
  {
    JoinWith(PromptPieces(bs), ",")
  }

  lemma PromptPieceFacts(bs: seq<byte>, k: nat)
    requires k < |bs|
    ensures ',' !in PromptPieces(bs)[k]
    ensures StripSpace(PromptPieces(bs)[k]) == FormatByte(bs[k])
  {
    var pre: string := if k == 0 then "" else " ";
    var s := FormatByte(bs[k]);
    var hi, lo := HexDigit(bs[k] / 16), HexDigit(bs[k] % 16);
    assert s == ['0', 'x', hi, lo];
    assert PromptPieces(bs)[k] == pre + s;
    StripPadding(pre, s, "", Whitespace);
    assert pre + s + "" == pre + s;
  }

  lemma {:induction false} AcceptedAllBytes(pieces: seq<string>, bs: seq<byte>)
    requires |pieces| == |bs|
    requires forall k :: 0 <= k < |bs| ==> pieces[k] == FormatByte(bs[k])
    ensures AcceptedValues(pieces) == bs
    ensures AllBytes(pieces)
  {
    forall k | 0 <= k < |bs| ensures IsByte(pieces[k]) && ParseHexInt(pieces[k]) == Some(bs[k] as int) {
      FormatByteParses(bs[k], "", "");
      assert "" + FormatByte(bs[k]) + "" == pieces[k];
    }
    if pieces != [] {
      AcceptedAllBytes(pieces[1..], bs[1..]);
    }
  }

  /** Writing a non-empty list of bytes in the prompted form parses back to those bytes. */
  lemma WriteRoundTrip(bs: seq<byte>)
    requires |bs| >= 1
    ensures AcceptedValues(Pieces(FormatByteString(bs))) == bs
    ensures AllBytes(Pieces(FormatByteString(bs)))
  {
    var raw := PromptPieces(bs);
    forall k | 0 <= k < |raw| ensures ',' !in raw[k] {
      PromptPieceFacts(bs, k);
    }
    SplitJoin(raw, ',');
    assert Split(FormatByteString(bs), ',') == raw;
    var pieces := Pieces(FormatByteString(bs));
    forall k | 0 <= k < |bs| ensures pieces[k] == FormatByte(bs[k]) {
      PromptPieceFacts(bs, k);
    }
    AcceptedAllBytes(pieces, bs);
  }

  /** An empty line is one empty piece, which is not a byte: nothing is written. */
  lemma EmptyByteStringRejected()
    ensures Pieces("") == [""] && !IsByte("")
  {
    NonBytes();
    assert StripSpace("") == "";
  }

  // ---------------------------------------------------------------------------------------
  // strip_tuple and decode_data

  /** `str(n)` for an integer. */
  function IntToString(n: int): (s: string)
    ensures s != []
    ensures s[0] == '-' || '0' <= s[0] <= '9'
    ensures '0' <= s[|s| - 1] <= '9'
    decreases if n < 0 then 1 - n else n
  {
    if n < 0 then "-" + IntToString(-n)
    else if n < 10 then [('0' as int + n) as char]
    else IntToString(n / 10) + [('0' as int + n % 10) as char]
  }

  /** The elements of a tuple of integers, separated by ", ". */
  function JoinInts(xs: seq<int>): string
  {
    if xs == [] then ""
    else if |xs| == 1 then IntToString(xs[0])
    else IntToString(xs[0]) + ", " + JoinInts(xs[1..])
  }

  /** The joined text starts with the first value's first character and ends with the last value's last digit. */
  lemma {:induction false} JoinIntsEnds(xs: seq<int>)
    requires |xs| >= 1
    ensures var s := JoinInts(xs); var last := IntToString(xs[|xs| - 1]);
      s != [] && s[0] == IntToString(xs[0])[0] && s[|s| - 1] == last[|last| - 1]
  {
    if |xs| > 1 {
      JoinIntsEnds(xs[1..]);
      assert xs[1..][|xs| - 2] == xs[|xs| - 1];
    }
  }

  /** `str(tuple)`: "()", "(x,)" or "(x, y, ...)". */
  function TupleRepr(xs: seq<int>): string {
    "(" + JoinInts(xs) + TupleClose(xs)
  }

  /** A one-element tuple prints a trailing comma before its closing parenthesis. */
  function TupleClose(xs: seq<int>): string {
    if |xs| == 1 then ",)" else ")"
  }

  const Parens: set<char> := {'(', ')'}
  const ParensAndComma: set<char> := {'(', ')', ','}

  /** `strip_tuple(t)`: strip "()" from the repr of a longer tuple, "()," from a shorter one. */
  function StripTuple(xs: seq<int>): (r: string)
    ensures r == JoinInts(xs)
  {
    if |xs| > 1 then
      StripLongTuple(xs);
      Strip(TupleRepr(xs), Parens)
    else if xs == [] then
      StripEmptyTuple();
      Strip(TupleRepr(xs), ParensAndComma)
    else
      StripOneTuple(xs);
      Strip(TupleRepr(xs), ParensAndComma)
  }

  lemma StripEmptyTuple()
    ensures Strip(TupleRepr([]), ParensAndComma) == ""
  {
    assert TupleRepr([]) == "()";
    assert StripLeft("()", ParensAndComma) == StripLeft(")", ParensAndComma);
    assert ")"[1..] == "";
  }

  lemma StripOneTuple(xs: seq<int>)
    requires |xs| == 1
    ensures Strip(TupleRepr(xs), ParensAndComma) == JoinInts(xs)
  {
    assert TupleClose(xs) == ",)";
    JoinIntsEnds(xs);
    StripNumeralPadding(JoinInts(xs), "(", ",)", ParensAndComma);
  }

  /** A printed numeral wrapped in parentheses and commas strips back to itself. */
  lemma StripNumeralPadding(j: string, pre: string, post: string, drop: set<char>)
    requires j != [] && (j[0] == '-' || '0' <= j[0] <= '9') && '0' <= j[|j| - 1] <= '9'
    requires drop == Parens || drop == ParensAndComma
    requires forall k :: 0 <= k < |pre| ==> pre[k] in drop
    requires forall k :: 0 <= k < |post| ==> post[k] in drop
    ensures Strip(pre + j + post, drop) == j
  {
    NumeralNotParen(j[0]);
    NumeralNotParen(j[|j| - 1]);
    StripPadding(pre, j, post, drop);
  }

  lemma StripLongTuple(xs: seq<int>)
    requires |xs| > 1
    ensures Strip(TupleRepr(xs), Parens) == JoinInts(xs)
  {
    assert TupleClose(xs) == ")";
    JoinIntsEnds(xs);
    StripNumeralPadding(JoinInts(xs), "(", ")", Parens);
  }

  /** What `decode_data` returns: a string, or the input bytes unchanged. */
  datatype Decoded = Text(text: string) | Raw(bytes: seq<byte>)

  /** A byte sequence as a tuple of unsigned integers. */
  function AsInts(bs: seq<byte>): (r: seq<int>)
    ensures |r| == |bs| && forall k :: 0 <= k < |bs| ==> r[k] == bs[k] as int
  {
    seq(|bs|, k requires 0 <= k < |bs| => bs[k] as int)
  }

  /**
   * `decode_data(coded_data, decoding_mode, options)`. The UTF-8 decoder and the
   * `struct.unpack` call with the user's format are parameters (`None` is an exception);
   * an exception from the UTF-8 decoder propagates, one from the user's format makes the
   * function return the input bytes.
   */
  function DecodeData(codedData: seq<byte>, decodingMode: string,
                      utf8: seq<byte> -> Option<string>,
                      customUnpack: seq<byte> -> Option<seq<int>>): (r: Result<Decoded, Exception>)
    ensures r.Failure? <==>
      || (decodingMode == "utf-8" && utf8(codedData).None?)
      || (decodingMode == "uint16_t" && |codedData| % 2 == 1)
    ensures r.Failure? ==> r.error == (if decodingMode == "utf-8" then UnicodeDecodeError else StructError)
    ensures r.Success? && r.value.Raw? ==>
      && r.value.bytes == codedData
      && decodingMode != "utf-8" && decodingMode != "uint8_t" && decodingMode != "uint16_t"
  {
    if decodingMode == "utf-8" then
      match utf8(codedData)
      case None => Failure(UnicodeDecodeError)
      case Some(text) => Success(Text(text))
    else if decodingMode == "uint8_t" then
      Success(Text(StripTuple(AsInts(codedData))))
    else if decodingMode == "uint16_t" then
      match UnpackU16LE(codedData)
      case None => Failure(StructError)
      case Some(values) => Success(Text(StripTuple(values)))
    else if decodingMode == "custom" then
      match customUnpack(codedData)
      case None => Success(Raw(codedData))
      case Some(values) => Success(Text(StripTuple(values)))
    else Success(Raw(codedData))
  }

  /** `uint8_t`: one decimal value per byte, in order, separated by ", ". */
  lemma Uint8Mode(codedData: seq<byte>, utf8: seq<byte> -> Option<string>, customUnpack: seq<byte> -> Option<seq<int>>)
    ensures DecodeData(codedData, "uint8_t", utf8, customUnpack) == Success(Text(JoinInts(AsInts(codedData))))
  {
  }

  /**
   * `uint16_t`: an even-length buffer prints its len/2 little-endian values b[2k] + 256 b[2k+1]
   * separated by ", "; an odd length raises struct.error.
   */
  lemma Uint16Mode(codedData: seq<byte>, utf8: seq<byte> -> Option<string>, customUnpack: seq<byte> -> Option<seq<int>>)
    ensures var r := DecodeData(codedData, "uint16_t", utf8, customUnpack);
      if |codedData| % 2 == 1 then r == Failure(StructError)
      else exists values: seq<int> ::
        && |values| == |codedData| / 2
        && (forall k :: 0 <= k < |values| ==> values[k] == codedData[2 * k] as int + 256 * (codedData[2 * k + 1] as int))
        && r == Success(Text(JoinInts(values)))
  {
    if |codedData| % 2 == 0 {
      var values := UnpackU16LE(codedData).value;
    }
  }

  /** `utf-8`: the decoded text, or the decoder's exception. */
  lemma Utf8Mode(codedData: seq<byte>, utf8: seq<byte> -> Option<string>, customUnpack: seq<byte> -> Option<seq<int>>)
    ensures var r := DecodeData(codedData, "utf-8", utf8, customUnpack);
      && (utf8(codedData).None? ==> r == Failure(UnicodeDecodeError))
      && (utf8(codedData).Some? ==> r == Success(Text(utf8(codedData).value)))
  {
  }

  /**
   * `custom`: the unpacked values separated by ", "; when the format does not fit the data the
   * exception is caught and the raw input returned.
   */
  lemma CustomMode(codedData: seq<byte>, utf8: seq<byte> -> Option<string>, customUnpack: seq<byte> -> Option<seq<int>>)
    ensures var r := DecodeData(codedData, "custom", utf8, customUnpack);
      && (customUnpack(codedData).None? ==> r == Success(Raw(codedData)))
      && (customUnpack(codedData).Some? ==> r == Success(Text(JoinInts(customUnpack(codedData).value))))
  {
  }

  /** A mode that is none of the four is returned as the raw input. */
  lemma UnknownModeIsRaw(codedData: seq<byte>, mode: string, utf8: seq<byte> -> Option<string>, customUnpack: seq<byte> -> Option<seq<int>>)
    requires mode != "utf-8" && mode != "uint8_t" && mode != "uint16_t" && mode != "custom"
    ensures DecodeData(codedData, mode, utf8, customUnpack) == Success(Raw(codedData))
  {
  }
}
