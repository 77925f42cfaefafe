/** The value-conversion helpers: `ToDBC` (full-width to half-width text),
    `IsBetween`, and the null, text and byte-array branches of `ToInt` and
    `ToLong`. */
module ObjectExtension {
  import opened Common
  import opened Sequences
  import opened DecimalText

  // ---------------------------------------------------------------------------
  // Full-width to half-width conversion
  // ---------------------------------------------------------------------------

  /** The characters `ToDBC` rewrites: the ideographic space U+3000 and the
      code points strictly between U+FF00 and U+FF5F of the Halfwidth and
      Fullwidth Forms block, i.e. the full-width forms of `'!'..'~'`. */
  predicate IsFullWidth(c: char) {
    c == '\U{3000}' || ('\U{FF00}' < c < '\U{FF5F}')
  }

  /** The visible ASCII characters, the image of the full-width forms. */
  predicate IsVisibleAscii(c: char) {
    '!' <= c <= '~'
  }

  /** The rewrite `ToDBC` applies to one character. */
  function HalfWidth(c: char): (h: char)
    ensures !IsFullWidth(h)
    ensures c == '\U{3000}' ==> h == ' '
    ensures '\U{FF00}' < c < '\U{FF5F}' ==> IsVisibleAscii(h)
    ensures !IsFullWidth(c) ==> h == c
  {
    if c == '\U{3000}' then ' '
    else if '\U{FF00}' < c < '\U{FF5F}' then (c as int - 0xFEE0) as char
    else c
  }

  /** The full-width form of a visible ASCII character: the inverse of
      `HalfWidth` on that range. */
  function FullWidth(c: char): (f: char)
    requires IsVisibleAscii(c)
    ensures '\U{FF00}' < f < '\U{FF5F}'
  {
    (c as int + 0xFEE0) as char
  }

  /** `HalfWidth` and `FullWidth` are mutually inverse bijections between
      `'!'..'~'` and U+FF01..U+FF5E. */
  lemma {:induction false} HalfWidthInvertsFullWidth(c: char, f: char)
    requires IsVisibleAscii(c) && '\U{FF00}' < f < '\U{FF5F}'
    ensures HalfWidth(FullWidth(c)) == c
    ensures FullWidth(HalfWidth(f)) == f
  {
  }

  /** What `ToDBC` returns for `s`: every character rewritten by `HalfWidth`. */
  function Dbc(s: string): (r: string)
    ensures |r| == |s|
    ensures forall i | 0 <= i < |r| :: !IsFullWidth(r[i])
    ensures forall i | 0 <= i < |s| :: !IsFullWidth(s[i]) ==> r[i] == s[i]
  {
    seq(|s|, i requires 0 <= i < |s| => HalfWidth(s[i]))
  }

  /** `ToDBC`: copies the string into a character array and rewrites the
      full-width characters in place. */
  method ToDbc(str: string) returns (r: string)
    ensures r == Dbc(str)
  {
    var chars := new char[|str|](i requires 0 <= i < |str| => str[i]);
    for index := 0 to chars.Length
      invariant forall k | 0 <= k < index :: chars[k] == HalfWidth(str[k])
      invariant forall k | index <= k < chars.Length :: chars[k] == str[k]
    {
      if chars[index] == '\U{3000}' {
        chars[index] := ' ';
      } else if '\U{FF00}' < chars[index] < '\U{FF5F}' {
        chars[index] := (chars[index] as int - 0xFEE0) as char;
      }
    }
    r := chars[..];
  }

  /** Converting twice is converting once: nothing `ToDBC` produces is in the
      converted ranges. */
  lemma {:induction false} DbcIdempotent(s: string)
    ensures Dbc(Dbc(s)) == Dbc(s)
  {
  }

  /** `ToDBC` works character by character, so it distributes over
      concatenation. */
  lemma {:induction false} DbcConcat(a: string, b: string)
    ensures Dbc(a + b) == Dbc(a) + Dbc(b)
  {
    assert forall i | 0 <= i < |a + b| :: Dbc(a + b)[i] == (Dbc(a) + Dbc(b))[i];
  }

  /** The full-width spelling of an ASCII text. */
  function Widen(s: string): (r: string)
    requires forall i | 0 <= i < |s| :: IsVisibleAscii(s[i])
    ensures |r| == |s|
    ensures forall i | 0 <= i < |r| :: IsFullWidth(r[i]) && r[i] != '\U{3000}'
  {
    seq(|s|, i requires 0 <= i < |s| => FullWidth(s[i]))
  }

  /** `ToDBC` undoes `Widen`. */
  lemma {:induction false} DbcOfWiden(s: string)
    requires forall i | 0 <= i < |s| :: IsVisibleAscii(s[i])
    ensures Dbc(Widen(s)) == s
  {
    assert forall i | 0 <= i < |s| :: Dbc(Widen(s))[i] == HalfWidth(FullWidth(s[i])) == s[i];
  }

  // ---------------------------------------------------------------------------
  // IsBetween
  // ---------------------------------------------------------------------------

  /** `IsBetween`: `value.CompareTo(start)` and `value.CompareTo(end)` are both
      evaluated (the source joins them with the non-short-circuit `&`); each
      endpoint is inclusive exactly when its flag is set. */
  function IsBetween<T>(compareTo: (T, T) -> int, value: T, start: T, end: T,
                        leftEqual: bool, rightEqual: bool): (r: bool)
    ensures r ==> compareTo(value, start) >= 0 && compareTo(value, end) <= 0
    ensures compareTo(value, start) > 0 && compareTo(value, end) < 0 ==> r
    ensures compareTo(value, start) == 0 && r ==> leftEqual
    ensures compareTo(value, end) == 0 && r ==> rightEqual
  {
    (if leftEqual then compareTo(value, start) >= 0 else compareTo(value, start) > 0) &&
    (if rightEqual then compareTo(value, end) <= 0 else compareTo(value, end) < 0)
  }

  /** `Int32.CompareTo`. */
  function CompareInt(a: int, b: int): (c: int)
    ensures c < 0 <==> a < b
    ensures c == 0 <==> a == b
    ensures c > 0 <==> a > b
  {
    if a < b then -1 else if a == b then 0 else 1
  }

  /** On integers `IsBetween` is the interval test, open at each end whose
      flag is clear and closed at each end whose flag is set. */
  lemma {:induction false} IsBetweenOnIntegers(v: int, s: int, e: int, leftEqual: bool, rightEqual: bool)
    ensures IsBetween(CompareInt, v, s, e, leftEqual, rightEqual) <==>
            (if leftEqual then s <= v else s < v) && (if rightEqual then v <= e else v < e)
  {
  }

  /** For any comparison, setting a flag only admits more values: the open
      interval lies inside every other variant. */
  lemma {:induction false} IsBetweenFlagsWiden<T>(compareTo: (T, T) -> int, v: T, s: T, e: T,
                               leftEqual: bool, rightEqual: bool)
    requires IsBetween(compareTo, v, s, e, false, false)
    ensures IsBetween(compareTo, v, s, e, leftEqual, rightEqual)
  {
  }

  /** An endpoint itself is inside exactly when its flag is set (for a
      comparison that orders the two endpoints strictly). */
  lemma {:induction false} IsBetweenEndpoints(s: int, e: int, leftEqual: bool, rightEqual: bool)
    requires s < e
    ensures IsBetween(CompareInt, s, s, e, leftEqual, rightEqual) <==> leftEqual
    ensures IsBetween(CompareInt, e, s, e, leftEqual, rightEqual) <==> rightEqual
  {
  }

  // ---------------------------------------------------------------------------
  // Machine integers and little-endian bytes
  // ---------------------------------------------------------------------------

  type Byte = b: int | 0 <= b < 0x100

  predicate InInt32(x: int) {
    -0x8000_0000 <= x < 0x8000_0000
  }

  predicate InInt64(x: int) {
    -0x8000_0000_0000_0000 <= x < 0x8000_0000_0000_0000
  }

  type Int32 = x: int | InInt32(x)

  type Int64 = x: int | InInt64(x)

  function Pow256(k: nat): (p: int)
    ensures p >= 1
  {
    if k == 0 then 1 else 256 * Pow256(k - 1)
  }

  /** The byte ranges of `short`, `int` and `long`. */
  lemma Pow256Widths()
    ensures Pow256(2) == 0x1_0000
    ensures Pow256(4) == 0x1_0000_0000
    ensures Pow256(8) == 0x1_0000_0000_0000_0000
  {
    assert Pow256(4) == Pow256(2) * Pow256(2) by {
      assert Pow256(4) == 256 * 256 * Pow256(2);
    }
    assert Pow256(8) == Pow256(4) * Pow256(4) by {
      assert Pow256(8) == 256 * 256 * 256 * 256 * Pow256(4);
    }
  }

  /** The unsigned value of a little-endian byte sequence. */
  function Unsigned(bs: seq<Byte>): (n: nat)
    ensures n < Pow256(|bs|)
  {
    if bs == [] then 0
    else
      var rest := Unsigned(bs[1..]);
      assert 256 * rest <= 256 * (Pow256(|bs| - 1) - 1);
      bs[0] + 256 * rest
  }

  /** The two's-complement value of a little-endian byte sequence, as
      `BitConverter.ToInt16/ToInt32/ToInt64` read it on a little-endian
      machine. */
  function Signed(bs: seq<Byte>): (n: int)
    requires |bs| >= 1
    ensures -Pow256(|bs|) <= 2 * n < Pow256(|bs|)
    ensures n >= 0 <==> 2 * Unsigned(bs) < Pow256(|bs|)
  {
    var u := Unsigned(bs);
    if 2 * u >= Pow256(|bs|) then u - Pow256(|bs|) else u
  }

  /** The `k` low-order bytes of `n`, least significant first. */
  function LittleEndian(n: nat, k: nat): (bs: seq<Byte>)
    ensures |bs| == k
  {
    if k == 0 then [] else [n % 256] + LittleEndian(n / 256, k - 1)
  }

  /** `BitConverter.GetBytes` for a `k`-byte signed integer. */
  function GetBytes(v: int, k: nat): (bs: seq<Byte>)
    requires k >= 1 && -Pow256(k) <= 2 * v < Pow256(k)
    ensures |bs| == k
  {
    LittleEndian(if v < 0 then v + Pow256(k) else v, k)
  }

  /** Decoding the bytes of a number that fits gives the number back. */
  lemma {:induction false} UnsignedOfLittleEndian(n: nat, k: nat)
    requires n < Pow256(k)
    ensures Unsigned(LittleEndian(n, k)) == n
  {
    if k > 0 {
      assert n / 256 < Pow256(k - 1);
      UnsignedOfLittleEndian(n / 256, k - 1);
      assert LittleEndian(n, k)[1..] == LittleEndian(n / 256, k - 1);
    }
  }

  /** Encoding the value of a byte sequence gives the bytes back. */
  lemma {:induction false} LittleEndianOfUnsigned(bs: seq<Byte>)
    ensures LittleEndian(Unsigned(bs), |bs|) == bs
  {
    if bs != [] {
      LittleEndianOfUnsigned(bs[1..]);
      var u := Unsigned(bs);
      assert u % 256 == bs[0] && u / 256 == Unsigned(bs[1..]);
    }
  }

  /** `BitConverter.ToIntNN(BitConverter.GetBytes(v))` is `v`. */
  lemma {:induction false} SignedOfGetBytes(v: int, k: nat)
    requires k >= 1 && -Pow256(k) <= 2 * v < Pow256(k)
    ensures Signed(GetBytes(v, k)) == v
  {
    UnsignedOfLittleEndian(if v < 0 then v + Pow256(k) else v, k);
  }

  /** A most significant zero byte does not change the unsigned value. */
  lemma {:induction false} UnsignedZeroExtend(bs: seq<Byte>)
    ensures Unsigned(bs + [0]) == Unsigned(bs)
  {
    if bs == [] {
      assert Unsigned([0]) == 0 + 256 * Unsigned([]);
    } else {
      assert (bs + [0])[1..] == bs[1..] + [0];
      UnsignedZeroExtend(bs[1..]);
    }
  }

  // ---------------------------------------------------------------------------
  // Text normalisation and integer parsing
  // ---------------------------------------------------------------------------

  /** `Char.IsWhiteSpace`: the space, line and paragraph separators together
      with the control characters U+0009..U+000D and U+0085. */
  predicate IsWhiteSpace(c: char) {
    ('\U{0009}' <= c <= '\U{000D}') || c == ' ' || c == '\U{0085}' || c == '\U{00A0}' ||
    c == '\U{1680}' || ('\U{2000}' <= c <= '\U{200A}') || c == '\U{2028}' ||
    c == '\U{2029}' || c == '\U{202F}' || c == '\U{205F}' || c == '\U{3000}'
  }

  /** `TrimStart()`: drops the leading white space. */
  function TrimStart(s: string): (r: string)
    ensures |r| <= |s| && r == s[|s| - |r|..]
    ensures forall i | 0 <= i < |s| - |r| :: IsWhiteSpace(s[i])
    ensures |r| > 0 ==> !IsWhiteSpace(r[0])
  {
    if |s| > 0 && IsWhiteSpace(s[0]) then TrimStart(s[1..]) else s
  }

  /** `TrimEnd()`: drops the trailing white space. */
  function TrimEnd(s: string): (r: string)
    ensures |r| <= |s| && r == s[..|r|]
    ensures forall i | |r| <= i < |s| :: IsWhiteSpace(s[i])
    ensures |r| > 0 ==> !IsWhiteSpace(r[|r| - 1])
  {
    if |s| > 0 && IsWhiteSpace(s[|s| - 1]) then TrimEnd(s[..|s| - 1]) else s
  }

  /** `Trim()`: the text without white space at either end. */
  function Trim(s: string): (r: string)
    ensures |r| <= |s|
    ensures |r| > 0 ==> !IsWhiteSpace(r[0]) && !IsWhiteSpace(r[|r| - 1])
  {
    TrimEnd(TrimStart(s))
  }

  /** A text without white space at its ends is its own trim. */
  lemma {:induction false} TrimKeepsTrimmed(s: string)
    requires |s| > 0 ==> !IsWhiteSpace(s[0]) && !IsWhiteSpace(s[|s| - 1])
    ensures Trim(s) == s
  {
  }

  predicate NotComma(c: char) {
    c != ','
  }

  /** `Replace(",", null)`: every comma removed, nothing else changed. */
  function RemoveCommas(s: string): (r: string)
    ensures ',' !in r
    ensures forall c | c in s && c != ',' :: c in r
  {
    FilterSpec(s, NotComma);
    Filter(s, NotComma)
  }

  /** The text the string branches of `ToInt` and `ToLong` hand to the parser:
      commas removed, then `ToDBC`, then `Trim`. */
  function Cleaned(s: string): string {
    Trim(Dbc(RemoveCommas(s)))
  }

  /** The integer an `NumberStyles.Integer` text denotes, of any size: an
      optional sign followed by at least one ASCII digit (the surrounding
      white space has already been trimmed). */
  function ParseInteger(s: string): (r: Option<int>)
    ensures r.Some? ==> |s| >= 1
  {
    if |s| >= 2 && s[0] == '-' && AllDigits(s[1..]) then
      var magnitude: int := ParseDecimal(s[1..]);
      Some(-magnitude)
    else if |s| >= 2 && s[0] == '+' && AllDigits(s[1..]) then Some(ParseDecimal(s[1..]))
    else if |s| >= 1 && AllDigits(s) then Some(ParseDecimal(s))
    else None
  }

  /** `int.TryParse`: the denoted integer when it fits in 32 bits. */
  function TryParseInt32(s: string): (r: Option<Int32>)
    ensures r.Some? <==> ParseInteger(s).Some? && InInt32(ParseInteger(s).value)
    ensures r.Some? ==> r.value == ParseInteger(s).value
  {
    match ParseInteger(s)
    case Some(n) => if InInt32(n) then Some(n) else None
    case None => None
  }

  /** `long.TryParse`: the denoted integer when it fits in 64 bits. */
  function TryParseInt64(s: string): (r: Option<Int64>)
    ensures r.Some? <==> ParseInteger(s).Some? && InInt64(ParseInteger(s).value)
    ensures r.Some? ==> r.value == ParseInteger(s).value
  {
    match ParseInteger(s)
    case Some(n) => if InInt64(n) then Some(n) else None
    case None => None
  }

  /** A digit string passes the cleaning unchanged. */
  lemma {:induction false} CleanedDigits(t: string)
    requires AllDigits(t)
    ensures Cleaned(t) == t
  {
    FilterKeepsAll(t, NotComma);
    assert Dbc(t) == t;
    TrimKeepsTrimmed(t);
  }

  lemma {:induction false} FilterKeepsAll<T>(s: seq<T>, p: T -> bool)
    requires forall i | 0 <= i < |s| :: p(s[i])
    ensures Filter(s, p) == s
  {
    if s != [] {
      FilterKeepsAll(s[1..], p);
    }
  }

  /** The decimal text of `n` denotes `n`. */
  lemma {:induction false} ParseDecimalText(n: nat)
    ensures ParseInteger(Decimal(n)) == Some(n)
  {
    DecimalRoundTrip(n);
  }
  // ---------------------------------------------------------------------------
  // ToInt and ToLong
  // ---------------------------------------------------------------------------

  /** The inputs the modelled branches distinguish. `Other` stands for any
      other object, carrying what `Convert.ToInt32` and `Convert.ToInt64` make
      of it (`None` when they throw). */
  datatype Value =
    | Null
    | DbNull
    | Text(s: string)
    | Bytes(data: seq<Byte>)
    | Other(asInt32: Option<Int32>, asInt64: Option<Int64>)

  /** The string branch shared by `ToInt` and (as written) `ToLong`: the cleaned
      text when it is non-empty and `int.TryParse` accepts it. */
  function ReadInt32(str: string): (r: Option<Int32>)
    ensures r.Some? <==> ParseInteger(Cleaned(str)).Some? && InInt32(ParseInteger(Cleaned(str)).value)
    ensures r.Some? ==> ParseInteger(Cleaned(str)) == Some(r.value)
  {
    var s := Cleaned(str);
    if |s| == 0 then None else TryParseInt32(s)
  }

  /** The string branch with `long.TryParse`. */
  function ReadInt64(str: string): (r: Option<Int64>)
    ensures r.Some? <==> ParseInteger(Cleaned(str)).Some? && InInt64(ParseInteger(Cleaned(str)).value)
    ensures r.Some? ==> ParseInteger(Cleaned(str)) == Some(r.value)
  {
    var s := Cleaned(str);
    if |s| == 0 then None else TryParseInt64(s)
  }

  /** `ToInt(value, defaultValue)`. */
  function ToInt(value: Value, defaultValue: Int32): (r: Int32)
    ensures value.Null? || value.DbNull? ==> r == defaultValue
    ensures value.Text? && r != defaultValue ==> ParseInteger(Cleaned(value.s)) == Some(r)
    ensures value.Bytes? && |value.data| == 0 ==> r == defaultValue
    ensures value.Bytes? && |value.data| == 1 ==> 0 <= r < 0x100
    ensures value.Bytes? && |value.data| == 2 ==> -0x8000 <= r < 0x8000
    ensures value.Bytes? && |value.data| == 3 ==> 0 <= r < 0x100_0000 && r == Unsigned(value.data)
    ensures value.Bytes? && |value.data| > 4 ==> r == defaultValue
  {
    match value
    case Null => defaultValue
    case DbNull => defaultValue
    case Text(str) =>
      (match ReadInt32(str) case Some(n) => n case None => defaultValue)
    case Bytes(data) =>
      if |data| < 1 then defaultValue
      else if |data| == 1 then data[0]
      else if |data| == 2 then Signed(data)
      else if |data| == 3 then
        UnsignedZeroExtend(data);
        Signed(data + [0])
      else if |data| == 4 then Signed(data)
      else defaultValue   // Convert.ToInt32 on a byte[] throws InvalidCastException
    case Other(asInt32, _) =>
      match asInt32 case Some(n) => n case None => defaultValue
  }

  /** The branches `ToLong` and its intended form share: null, bytes (with the
      extra 8-byte case) and the `Convert.ToInt64` fall-through. */
  function ToLongNonText(value: Value, defaultValue: Int64): (r: Int64)
    requires !value.Text?
    ensures value.Null? || value.DbNull? ==> r == defaultValue
    ensures value.Bytes? && |value.data| == 0 ==> r == defaultValue
    ensures value.Bytes? && |value.data| == 3 ==> 0 <= r < 0x100_0000 && r == Unsigned(value.data)
    ensures value.Bytes? && |value.data| == 8 ==> r == Signed(value.data)
    ensures value.Bytes? && |value.data| > 4 && |value.data| != 8 ==> r == defaultValue
  {
    match value
    case Null => defaultValue
    case DbNull => defaultValue
    case Bytes(data) =>
      if |data| < 1 then defaultValue
      else if |data| == 1 then data[0]
      else if |data| == 2 then Signed(data)
      else if |data| == 3 then
        UnsignedZeroExtend(data);
        Signed(data + [0])
      else if |data| == 4 then Signed(data)
      else if |data| == 8 then Signed(data)
      else defaultValue   // Convert.ToInt64 on a byte[] throws InvalidCastException
    case Other(_, asInt64) =>
      match asInt64 case Some(n) => n case None => defaultValue
  }

  /** `ToLong(value, defaultValue)` as written: its string branch parses with
      `int.TryParse`, so a text result always lies in the 32-bit range. */
  function ToLong(value: Value, defaultValue: Int64): (r: Int64)
    ensures value.Text? && r != defaultValue ==>
              InInt32(r) && ParseInteger(Cleaned(value.s)) == Some(r)
  {
    match value
    case Text(str) =>
      (match ReadInt32(str) case Some(n) => n case None => defaultValue)
    case _ => ToLongNonText(value, defaultValue)
  }

  /** `ToLong` with the string branch parsing 64-bit integers, the evident
      intent of a 64-bit conversion. */
  function ToLongIntended(value: Value, defaultValue: Int64): (r: Int64)
    ensures value.Text? && r != defaultValue ==>
              InInt64(r) && ParseInteger(Cleaned(value.s)) == Some(r)
    ensures !value.Text? ==> r == ToLong(value, defaultValue)
  {
    match value
    case Text(str) =>
      (match ReadInt64(str) case Some(n) => n case None => defaultValue)
    case _ => ToLongNonText(value, defaultValue)
  }

  /** `ToLong` decodes null, text and byte arrays of length 1 to 4 exactly as
      `ToInt` does; only the 8-byte case and other objects differ. */
  lemma {:induction false} ToLongWidensToInt(value: Value, defaultValue: Int64)
    requires InInt32(defaultValue)
    requires !value.Other?
    requires value.Bytes? ==> |value.data| != 8
    ensures ToLong(value, defaultValue) == ToInt(value, defaultValue)
  {
  }

  /** Byte arrays produced by `BitConverter.GetBytes` on a `short`, an `int`
      and a `long` are read back as the same number. */
  lemma {:induction false} BytesRoundTrip(v: int, d32: Int32, d64: Int64)
    ensures -0x8000 <= v < 0x8000 ==> ToInt(Bytes(GetBytes(v, 2)), d32) == v
    ensures InInt32(v) ==> ToInt(Bytes(GetBytes(v, 4)), d32) == v
    ensures InInt64(v) ==> ToLong(Bytes(GetBytes(v, 8)), d64) == v
  {
    Pow256Widths();
    if -0x8000 <= v < 0x8000 { SignedOfGetBytes(v, 2); }
    if InInt32(v) { SignedOfGetBytes(v, 4); }
    if InInt64(v) { SignedOfGetBytes(v, 8); }
  }

  /** The full-width spelling of a digit string cleans to the digit string. */
  lemma {:induction false} CleanedWidenedDigits(t: string)
    requires AllDigits(t)
    ensures forall i | 0 <= i < |t| :: IsVisibleAscii(t[i])
    ensures Cleaned(Widen(t)) == t
  {
    var w := Widen(t);
    assert RemoveCommas(w) == w by {
      assert forall i | 0 <= i < |w| :: NotComma(w[i]);
      FilterKeepsAll(w, NotComma);
    }
    assert Dbc(w) == t by {
      DbcOfWiden(t);
    }
    TrimKeepsTrimmed(t);
  }

  /** The decimal text of a non-negative `int` is read back by `ToInt`, also
      when spelt with full-width digits. */
  lemma {:induction false} DecimalTextRoundTrip(n: nat, d: Int32)
    requires n < 0x8000_0000
    ensures ToInt(Text(Decimal(n)), d) == n
    ensures forall i | 0 <= i < |Decimal(n)| :: IsVisibleAscii(Decimal(n)[i])
    ensures ToInt(Text(Widen(Decimal(n))), d) == n
  {
    ReadDecimalText(n);
    ToIntOfText(Decimal(n), d);
    ToIntOfText(Widen(Decimal(n)), d);
  }

  lemma {:induction false} ToIntOfText(str: string, d: Int32)
    requires ReadInt32(str).Some?
    ensures ToInt(Text(str), d) == ReadInt32(str).value
  {
  }

  lemma {:induction false} ReadDecimalText(n: nat)
    requires n < 0x8000_0000
    ensures ReadInt32(Decimal(n)) == Some(n)
    ensures forall i | 0 <= i < |Decimal(n)| :: IsVisibleAscii(Decimal(n)[i])
    ensures ReadInt32(Widen(Decimal(n))) == Some(n)
  {
    var t := Decimal(n);
    ParseDecimalText(n);
    CleanedDigits(t);
    CleanedWidenedDigits(t);
  }

  /** Removing commas drops a comma wherever it sits. */
  lemma {:induction false} RemoveCommasSkipsComma(a: string, b: string)
    ensures RemoveCommas(a + [','] + b) == RemoveCommas(a + b)
  {
    var comma: string := [','];
    assert Filter(comma, NotComma) == [] by {
      assert comma[1..] == [];
    }
    calc {
      RemoveCommas(a + comma + b);
      { FilterConcat(a + comma, b, NotComma); }
      Filter(a + comma, NotComma) + Filter(b, NotComma);
      { FilterConcat(a, comma, NotComma); }
      Filter(a, NotComma) + Filter(b, NotComma);
      { FilterConcat(a, b, NotComma); }
      RemoveCommas(a + b);
    }
  }

  /** Commas are ignored wherever they appear in the text. */
  lemma {:induction false} CommasIgnored(a: string, b: string, d: Int32)
    ensures ToInt(Text(a + [','] + b), d) == ToInt(Text(a + b), d)
  {
    RemoveCommasSkipsComma(a, b);
    assert ReadInt32(a + [','] + b) == ReadInt32(a + b);
  }

  /** As written, `ToLong` gives the default for the text of any number beyond
      the 32-bit range, although the number fits in 64 bits. */
  lemma {:induction false} ToLongMissesLargeText(n: nat, d: Int64)
    requires 0x8000_0000 <= n < 0x8000_0000_0000_0000
    ensures ToLong(Text(Decimal(n)), d) == d
  {
    CleanedDigits(Decimal(n));
    ParseDecimalText(n);
    assert ReadInt32(Decimal(n)) == None;
  }

  /** The intended `ToLong` reads back the text of every non-negative `long`. */
  lemma {:induction false} ToLongIntendedReadsText(n: nat, d: Int64)
    requires n < 0x8000_0000_0000_0000
    ensures ToLongIntended(Text(Decimal(n)), d) == n
  {
    CleanedDigits(Decimal(n));
    ParseDecimalText(n);
    assert ReadInt64(Decimal(n)) == Some(n);
  }
}
