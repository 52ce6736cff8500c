/**
 * Serial numbers as the database holds them: hexadecimal text, looked up by an
 * index that ignores leading zeros.
 */
module Serial {
  import opened CStrings

  predicate IsUpperHexDigit(c: char) {
    '0' <= c <= '9' || 'A' <= c <= 'F'
  }

  predicate IsHexDigit(c: char) {
    IsUpperHexDigit(c) || 'a' <= c <= 'f'
  }

  predicate IsHex(s: string) {
    forall i :: 0 <= i < |s| ==> IsHexDigit(s[i])
  }

  predicate IsUpperHex(s: string) {
    forall i :: 0 <= i < |s| ==> IsUpperHexDigit(s[i])
  }

  function DigitValue(c: char): (d: nat)
    requires IsHexDigit(c)
    ensures d < 16
    ensures IsUpperHexDigit(c) ==> HexDigit(d) == c
  {
    if c <= '9' then c as int - '0' as int
    else if c <= 'F' then c as int - 'A' as int + 10
    else c as int - 'a' as int + 10
  }

  function HexDigit(d: nat): (c: char)
    requires d < 16
    ensures IsUpperHexDigit(c)
  {
    if d < 10 then (d + '0' as int) as char else (d - 10 + 'A' as int) as char
  }

  /** The number a hexadecimal string denotes, most significant digit first. */
  function Value(s: string): nat
    requires IsHex(s)
  {
    if s == "" then 0 else 16 * Value(s[..|s| - 1]) + DigitValue(s[|s| - 1])
  }

  /** What index_serial_hash hashes and index_serial_cmp compares. */
  function Key(s: string): string {
    if s != "" && s[0] == '0' then Key(s[1..]) else s
  }

  function TwoDigits(b: nat): (s: string)
    requires b < 256
    ensures |s| == 2
  {
    [HexDigit(b / 16), HexDigit(b % 16)]
  }

  /** BN_bn2hex on a positive number: two uppercase digits a byte, no leading zero byte. */
  function ByteHex(n: nat): string
    requires n > 0
  {
    (if n < 256 then "" else ByteHex(n / 256)) + TwoDigits(n % 256)
  }

  /** The text that do_body, do_revoke and lookup_serial give a number. */
  function Text(n: nat): string {
    if n == 0 then "00" else ByteHex(n)
  }

  // ----- the key decides the number -----

  lemma {:induction false} ValueSplit(a: string, b: string)
    requires IsHex(a) && IsHex(b)
    ensures IsHex(a + b)
    ensures Value(a) == 0 ==> Value(a + b) == Value(b)
  {
    if b == "" {
      assert a + b == a;
    } else {
      ValueSplit(a, b[..|b| - 1]);
      assert (a + b)[..|a + b| - 1] == a + b[..|b| - 1];
    }
  }

  lemma {:induction false} KeyKeepsValue(s: string)
    requires IsHex(s)
    ensures IsHex(Key(s)) && Value(Key(s)) == Value(s)
    ensures Key(s) == "" || Key(s)[0] != '0'
    ensures IsUpperHex(s) ==> IsUpperHex(Key(s))
  {
    if s != "" && s[0] == '0' {
      KeyKeepsValue(s[1..]);
      ValueSplit("0", s[1..]);
      assert s == "0" + s[1..];
    }
  }

  /** The key of a text is in uppercase digits exactly when the text is. */
  lemma {:induction false} KeyKeepsCase(s: string)
    ensures IsUpperHex(Key(s)) <==> IsUpperHex(s)
  {
    if s != "" && s[0] == '0' {
      KeyKeepsCase(s[1..]);
      assert s == [s[0]] + s[1..];
    }
  }

  lemma {:induction false} NonzeroLeadIsPositive(s: string)
    requires IsHex(s) && s != "" && s[0] != '0'
    ensures Value(s) > 0
  {
    if |s| > 1 {
      NonzeroLeadIsPositive(s[..|s| - 1]);
    }
  }

  /** Digits without a leading zero are determined by their value. */
  lemma {:induction false} ValueInjective(s: string, t: string)
    requires IsUpperHex(s) && IsUpperHex(t)
    requires s == "" || s[0] != '0'
    requires t == "" || t[0] != '0'
    requires Value(s) == Value(t)
    ensures s == t
    decreases |s|
  {
    if s != "" { NonzeroLeadIsPositive(s); }
    if t != "" { NonzeroLeadIsPositive(t); }
    if s != "" && t != "" {
      var s', t' := s[..|s| - 1], t[..|t| - 1];
      ValueInjective(s', t');
      assert s == s' + [s[|s| - 1]] && t == t' + [t[|t| - 1]];
    }
  }

  /** On uppercase unsigned hex, equal index keys mean equal numbers and the other way round. */
  lemma KeyIsNumeric(s: string, t: string)
    requires IsUpperHex(s) && IsUpperHex(t)
    ensures Key(s) == Key(t) <==> Value(s) == Value(t)
  {
    KeyKeepsValue(s);
    KeyKeepsValue(t);
    if Value(s) == Value(t) {
      ValueInjective(Key(s), Key(t));
    }
  }

  function Upper(s: string): (r: string)
    ensures |r| == |s|
    ensures forall i :: 0 <= i < |s| ==> r[i] == ToUpper(s[i])
  {
    seq(|s|, i requires 0 <= i < |s| => ToUpper(s[i]))
  }

  lemma {:induction false} UpperKeepsValue(s: string)
    requires IsHex(s)
    ensures IsUpperHex(Upper(s)) && Value(Upper(s)) == Value(s)
  {
    if s != "" {
      UpperKeepsValue(s[..|s| - 1]);
      assert Upper(s)[..|s| - 1] == Upper(s[..|s| - 1]);
    }
  }

  /** In any mix of cases the index still never equates two different numbers. */
  lemma KeyIsSound(s: string, t: string)
    requires IsHex(s) && IsHex(t)
    ensures Key(s) == Key(t) ==> Value(s) == Value(t)
    ensures IsUpperHex(s) && Value(s) == Value(t) ==> (Key(s) == Key(t) <==> IsUpperHex(t))
    ensures Value(s) == Value(t) <==> Upper(Key(s)) == Upper(Key(t))
  {
    KeyKeepsValue(s);
    KeyKeepsValue(t);
    KeyKeepsCase(s);
    KeyKeepsCase(t);
    if IsUpperHex(s) && IsUpperHex(t) {
      KeyIsNumeric(s, t);
    }
    UpperKeepsValue(Key(s));
    UpperKeepsValue(Key(t));
    if Value(s) == Value(t) {
      assert Upper(Key(s)) == "" || Upper(Key(s))[0] != '0';
      assert Upper(Key(t)) == "" || Upper(Key(t))[0] != '0';
      ValueInjective(Upper(Key(s)), Upper(Key(t)));
    }
  }

  // ----- printing a number -----

  lemma AppendByte(hi: string, b: nat)
    requires IsUpperHex(hi) && b < 256
    ensures IsUpperHex(hi + TwoDigits(b)) && Value(hi + TwoDigits(b)) == 256 * Value(hi) + b
  {
    var s := hi + TwoDigits(b);
    var mid := hi + [HexDigit(b / 16)];
    assert s[..|s| - 1] == mid && mid[..|mid| - 1] == hi;
    HexDigitValue(b / 16);
    HexDigitValue(b % 16);
    assert Value(mid) == 16 * Value(hi) + b / 16;
    assert Value(s) == 16 * Value(mid) + b % 16;
  }

  lemma HexDigitValue(d: nat)
    requires d < 16
    ensures DigitValue(HexDigit(d)) == d
  {
  }

  /** Uppercase digits, two a byte, for the number. */
  ghost predicate Denotes(s: string, n: nat) {
    |s| % 2 == 0 && |s| >= 2 && IsUpperHex(s) && Value(s) == n
  }

  lemma {:induction false} ByteHexDenotes(n: nat)
    requires n > 0
    ensures Denotes(ByteHex(n), n)
  {
    hide Denotes, TwoDigits, ByteHex;
    ByteHexUnfolded(n);
    if n < 256 {
      DenotesByte(n);
    } else {
      ByteHexDenotes(n / 256);
      DenotesNext(ByteHex(n / 256), n / 256, n % 256);
    }
  }

  lemma DenotesByte(b: nat)
    requires b < 256
    ensures Denotes(TwoDigits(b), b)
  {
    AppendByte("", b);
    assert "" + TwoDigits(b) == TwoDigits(b);
  }

  lemma DenotesNext(hi: string, h: nat, b: nat)
    requires Denotes(hi, h) && b < 256
    ensures Denotes(hi + TwoDigits(b), 256 * h + b)
  {
    hide TwoDigits;
    AppendByte(hi, b);
  }

  lemma {:induction false} ByteHexUnfolded(n: nat)
    requires n > 0
    ensures ByteHex(n) == if n < 256 then TwoDigits(n) else ByteHex(n / 256) + TwoDigits(n % 256)
  {
    hide TwoDigits;
    assert n < 256 ==> "" + TwoDigits(n) == TwoDigits(n);
  }

  lemma {:induction false} NoZeroByteFirst(n: nat)
    requires n > 0
    ensures |ByteHex(n)| >= 2 && ByteHex(n)[..2] != "00"
  {
    hide ByteHex;
    ByteHexUnfolded(n);
    if n < 256 {
      FirstByte(n);
    } else {
      NoZeroByteFirst(n / 256);
    }
  }

  lemma FirstByte(b: nat)
    requires 0 < b < 256
    ensures TwoDigits(b)[..2] != "00"
  {
    assert TwoDigits(b)[..2] == TwoDigits(b);
    HexDigitValue(b / 16);
    HexDigitValue(b % 16);
    assert TwoDigits(b)[0] == HexDigit(b / 16) && TwoDigits(b)[1] == HexDigit(b % 16);
    assert DigitValue('0') == 0;
  }

  /** A printed number passes the loader's serial checks, is no longer than it needs to be and reads back as itself. */
  lemma TextRoundTrip(n: nat)
    ensures |Text(n)| % 2 == 0 && |Text(n)| >= 2
    ensures IsUpperHex(Text(n)) && Value(Text(n)) == n
    ensures Text(n)[..2] == "00" <==> n == 0
    ensures n == 0 ==> Text(n) == "00"
  {
    if n > 0 {
      ByteHexDenotes(n);
      NoZeroByteFirst(n);
    } else {
      assert "00"[..1] == "0" && "0"[..0] == "";
    }
  }

  /** Distinct numbers get distinct index keys. */
  lemma TextKeyInjective(m: nat, n: nat)
    ensures Key(Text(m)) == Key(Text(n)) <==> m == n
  {
    TextRoundTrip(m);
    TextRoundTrip(n);
    KeyIsNumeric(Text(m), Text(n));
  }

  /**
   * Looking a number up reaches the key of a hexadecimal text for that number
   * exactly when the text is in uppercase.
   */
  lemma NumberReachesKeyIff(s: string)
    requires IsHex(s)
    ensures Key(s) == Key(Text(Value(s))) <==> IsUpperHex(s)
  {
    TextRoundTrip(Value(s));
    KeyIsSound(Text(Value(s)), s);
  }

  // ----- reading a number -----

  /** The longest prefix of hex digits. */
  function HexPrefix(s: string): (p: string)
    ensures IsHex(p) && p <= s
    ensures IsHex(s) ==> p == s
  {
    if s != "" && IsHexDigit(s[0]) then [s[0]] + HexPrefix(s[1..]) else ""
  }

  /** BN_hex2bn */
  function NumberOf(s: string): int {
    if s != "" && s[0] == '-' then -(Value(HexPrefix(s[1..])) as int) else Value(HexPrefix(s))
  }

  /** The digits mean what they do everywhere, in either case. */
  lemma DigitTable(d: nat)
    requires d < 16
    ensures HexDigit(d) == "0123456789ABCDEF"[d]
    ensures DigitValue("0123456789ABCDEF"[d]) == DigitValue("0123456789abcdef"[d]) == d
  {
  }

  /** Digits, with or without a sign, are read in full. */
  lemma SignedNumberOf(s: string)
    requires IsHex(s)
    ensures NumberOf(s) == Value(s) && NumberOf("-" + s) == -(Value(s) as int)
  {
    hide HexPrefix, Value, IsHexDigit;
    assert ("-" + s)[1..] == s;
    NoSign(s);
  }

  lemma NoSign(s: string)
    requires IsHex(s)
    ensures s != "" ==> s[0] != '-'
  {
    assert s != "" ==> IsHexDigit(s[0]);
  }

  lemma UpperNumberOf(s: string)
    requires IsUpperHex(s)
    ensures NumberOf(s) == Value(s)
  {
    assert IsHex(s);
  }

  // ----- whole bytes -----

  type Byte = b: nat | b < 256

  /** Two uppercase digits for each byte. */
  function HexBytes(bytes: seq<Byte>): string {
    if bytes == [] then "" else TwoDigits(bytes[0]) + HexBytes(bytes[1..])
  }

  lemma {:induction false} BytesOf(s: string) returns (bytes: seq<Byte>)
    requires IsHex(s) && |s| % 2 == 0
    ensures |bytes| == |s| / 2 && Upper(s) == HexBytes(bytes)
    decreases |s|
  {
    if s == "" {
      bytes := [];
    } else {
      hide Upper, HexBytes, TwoDigits, IsHexDigit;
      var more := BytesOf(s[2..]);
      var b := OneByte(s);
      bytes := [b] + more;
      HexBytesCons(b, more);
    }
  }

  lemma OneByte(s: string) returns (b: Byte)
    requires IsHex(s) && |s| >= 2
    ensures Upper(s) == TwoDigits(b) + Upper(s[2..])
  {
    UpperDigit(s[0]);
    UpperDigit(s[1]);
    hide IsHexDigit, ToUpper, DigitValue, HexDigit;
    b := 16 * DigitValue(s[0]) + DigitValue(s[1]);
    assert b / 16 == DigitValue(s[0]) && b % 16 == DigitValue(s[1]);
    assert TwoDigits(b) == [ToUpper(s[0]), ToUpper(s[1])];
    assert Upper(s) == [ToUpper(s[0]), ToUpper(s[1])] + Upper(s[2..]);
  }

  lemma {:induction false} HexBytesCons(b: Byte, more: seq<Byte>)
    ensures HexBytes([b] + more) == TwoDigits(b) + HexBytes(more)
  {
    assert ([b] + more)[1..] == more;
  }

  lemma UpperDigit(c: char)
    requires IsHexDigit(c)
    ensures HexDigit(DigitValue(c)) == ToUpper(c)
  {
  }

  lemma {:induction false} HexBytesAreHex(bytes: seq<Byte>)
    ensures IsUpperHex(HexBytes(bytes)) && |HexBytes(bytes)| == 2 * |bytes|
    decreases |bytes|
  {
    if bytes != [] {
      HexBytesAreHex(bytes[1..]);
    }
  }

  // ----- the functions of the index -----

  lemma {:induction false} KeySkipsZeros(s: string, k: nat)
    requires k <= |s| && (forall i :: 0 <= i < k ==> s[i] == '0')
    requires k == |s| || s[k] != '0'
    ensures Key(s) == s[k..]
  {
    if k > 0 {
      KeySkipsZeros(s[1..], k - 1);
      assert s[1..][k - 1..] == s[k..];
    }
  }

  /** index_serial_cmp: zero exactly when the two serial numbers are equal. */
  method IndexSerialCmp(a: string, b: string) returns (r: int)
    ensures r == 0 <==> Key(a) == Key(b)
    ensures IsUpperHex(a) && IsUpperHex(b) ==> (r == 0 <==> Value(a) == Value(b))
  {
    var i := 0;
    while i < |a| && a[i] == '0'
      invariant i <= |a| && forall k :: 0 <= k < i ==> a[k] == '0'
    {
      i := i + 1;
    }
    var j := 0;
    while j < |b| && b[j] == '0'
      invariant j <= |b| && forall k :: 0 <= k < j ==> b[k] == '0'
    {
      j := j + 1;
    }
    r := Compare(a[i..], b[j..]);
    KeySkipsZeros(a, i);
    KeySkipsZeros(b, j);
    CompareZero(a[i..], b[j..]);
    if IsUpperHex(a) && IsUpperHex(b) {
      KeyIsNumeric(a, b);
    }
  }

  /** index_serial_hash, over any string hash: numbers that are equal hash alike, so a lookup reaches its row. */
  method IndexSerialHash(strHash: string -> nat, a: string) returns (h: nat)
    ensures h == strHash(Key(a))
    ensures forall b | IsUpperHex(a) && IsUpperHex(b) && Value(a) == Value(b) :: h == strHash(Key(b))
  {
    var i := 0;
    while i < |a| && a[i] == '0'
      invariant i <= |a| && forall k :: 0 <= k < i ==> a[k] == '0'
    {
      i := i + 1;
    }
    KeySkipsZeros(a, i);
    h := strHash(a[i..]);
    forall b | IsUpperHex(a) && IsUpperHex(b) && Value(a) == Value(b)
      ensures h == strHash(Key(b))
    {
      KeyIsNumeric(a, b);
    }
  }

  /**
   * The key get_certificate_status builds from a user's text: an odd number of
   * digits gets a leading zero, then every character is raised in place.
   */
  method NormalizeSerial(serial: string) returns (row: array<char>)
    requires IsCString(serial)
    ensures fresh(row)
    ensures HasAt(row[..], 0, Upper(Padded(serial)))
  {
    row := PaddedRow(serial);
    RaiseRow(row, Padded(serial));
  }

  /** The digits, made even in number. */
  function Padded(serial: string): (s: string)
    ensures |s| % 2 == 0
  {
    if |serial| % 2 == 1 then "0" + serial else serial
  }

  method PaddedRow(serial: string) returns (row: array<char>)
    requires IsCString(serial)
    ensures fresh(row) && HasAt(row[..], 0, Padded(serial))
  {
    row := new char[|serial| + 2](_ => NUL);
    var from := 0;
    if |serial| % 2 == 1 {
      row[0] := '0';
      from := 1;
    }
    forall k | 0 <= k < |serial| {
      row[from + k] := serial[k];
    }
    row[from + |serial|] := NUL;
    forall k | 0 <= k <= |Padded(serial)| ensures row[..][k] == At(Padded(serial), k) {
      assert k >= from ==> row[from + (k - from)] == At(serial, k - from);
    }
    RowHolds(row[..], Padded(serial));
  }

  /** Raises the text in the row to upper case, up to its NUL. */
  method RaiseRow(row: array<char>, ghost s: string)
    requires HasAt(row[..], 0, s)
    modifies row
    ensures HasAt(row[..], 0, Upper(s))
  {
    hide ToUpper;
    UpperIsCString(s);
    assert forall k :: 0 <= k <= |s| ==> row[k] == row[..][0 + k];
    var i := 0;
    while row[i] != NUL
      invariant 0 <= i <= |s| < row.Length
      invariant forall k :: 0 <= k < i ==> row[k] == ToUpper(s[k])
      invariant forall k :: i <= k <= |s| ==> row[k] == At(s, k)
      decreases |s| - i
    {
      row[i] := ToUpper(row[i]);
      i := i + 1;
    }
    RowHolds(row[..], Upper(s));
  }

  lemma RowHolds(row: seq<char>, s: string)
    requires IsCString(s) && |s| < |row| && forall k :: 0 <= k <= |s| ==> row[k] == At(s, k)
    ensures HasAt(row, 0, s)
  {
  }

  lemma UpperIsCString(s: string)
    requires IsCString(s)
    ensures IsCString(Upper(s))
  {
  }

  /** The normalised text denotes the same number and is fit for the index. */
  lemma NormalizedIsNumeric(serial: string)
    requires IsHex(serial)
    ensures var t := Upper(Padded(serial));
            IsUpperHex(t) && |t| % 2 == 0 && Value(t) == Value(serial)
  {
    var padded := Padded(serial);
    if |serial| % 2 == 1 {
      assert "0"[..0] == "";
      ValueSplit("0", serial);
    }
    UpperKeepsValue(padded);
  }
}
