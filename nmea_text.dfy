/**
 * The text layer of the NMEA 0183 parser: the checksum test, comma-field
 * counting and extraction, and the C library conversions (`strtol`, `atoi`,
 * `sscanf("%2d")`) the decoders apply to extracted fields.
 */
module NmeaText {
  import opened CTypes

  /** A C string as the parser receives it: no NUL, every character an unsigned byte. */
  predicate IsCString(s: seq<char>) {
    forall i | 0 <= i < |s| :: 0 < s[i] as int < 256
  }

  type CString = s: seq<char> | IsCString(s)

  /** The byte value of a character of a C string. */
  function ByteOf(c: char): bv8 {
    ((c as int) % 256) as bv8
  }

  /** Index of the first `c` in `s` (`strchr`), or |s| when there is none. */
  function IndexOf(s: seq<char>, c: char): (i: nat)
    ensures i <= |s|
    ensures i < |s| ==> s[i] == c
    ensures forall k | 0 <= k < i :: s[k] != c
  {
    if |s| == 0 then 0 else if s[0] == c then 0 else 1 + IndexOf(s[1..], c)
  }

  // ---------------------------------------------------------------------------
  // Checksum
  // ---------------------------------------------------------------------------

  /** XOR of the bytes of `s`, accumulated left to right. */
  function Xor(s: seq<char>): bv8 {
    if s == [] then 0 else Xor(s[..|s| - 1]) ^ ByteOf(s[|s| - 1])
  }

  /**
   * `nmea_is_valid_checksum` (nonzero result): at least 7 characters, a first
   * `*` at offset 3 or later, and the XOR of the characters from offset 1 up
   * to that `*` equal to the hexadecimal number `strtol` reads after it.
   */
  predicate ChecksumValid(s: CString) {
    var star := IndexOf(s, '*');
    && |s| >= 7
    && star < |s|
    && star >= 3
    && Xor(s[1..star]) as int == Strtol(s[star + 1..], 16)
  }

  /** The scan `nmea_is_valid_checksum` performs, loop and all. */
  method IsValidChecksum(s: CString) returns (valid: bool)
    ensures valid == ChecksumValid(s)
  {
    if |s| < 7 {
      return false;
    }
    var star := IndexOf(s, '*');
    if star == |s| || star < 3 {
      return false;
    }
    var checksumValue := Strtol(s[star + 1..], 16);
    var calculated := XorRange(s, star);
    valid := calculated as int == checksumValue;
  }

  /** The accumulation loop of `nmea_is_valid_checksum`: the XOR of the characters from offset 1 up to `star`. */
  method XorRange(s: seq<char>, star: int) returns (calculated: bv8)
    requires 1 <= star <= |s|
    ensures calculated == Xor(s[1..star])
  {
    calculated := 0;
    var p := 1;
    while p < star
      invariant 1 <= p <= star
      invariant calculated == Xor(s[1..p])
    {
      assert s[1..p + 1][..p - 1] == s[1..p];
      calculated := calculated ^ ByteOf(s[p]);
      p := p + 1;
    }
  }

  /** Upper-case hexadecimal digit of a nibble. */
  function HexDigit(n: int): (c: char)
    requires 0 <= n < 16
    ensures IsDigitIn(c, 16) && DigitValue(c) == n
  {
    if n < 10 then ('0' as int + n) as char else ('A' as int + n - 10) as char
  }

  /** The two-character checksum suffix a talker appends after `*`. */
  function HexByte(b: bv8): seq<char> {
    [HexDigit(b as int / 16), HexDigit(b as int % 16)]
  }

  /** A sentence framed the way a receiver emits it: `$`, the body, `*`, the checksum. */
  function Sentence(body: seq<char>, sum: bv8): seq<char> {
    ['$'] + body + ['*'] + HexByte(sum)
  }

  lemma XorAppend(a: seq<char>, b: seq<char>)
    ensures Xor(a + b) == Xor(a) ^ Xor(b)
    decreases |b|
  {
    if b == [] {
      assert a + b == a;
    } else {
      var b' := b[..|b| - 1];
      assert (a + b)[..|a + b| - 1] == a + b';
      XorAppend(a, b');
    }
  }

  lemma {:induction false} XorUpdate(s: seq<char>, i: nat, c: char)
    requires i < |s|
    ensures Xor(s[i := c]) == Xor(s) ^ ByteOf(s[i]) ^ ByteOf(c)
    decreases |s|
  {
    var t := s[i := c];
    var n := |s| - 1;
    if i == n {
      assert t[..n] == s[..n];
    } else {
      assert t[..n] == s[..n][i := c];
      XorUpdate(s[..n], i, c);
      assert s[..n][i] == s[i];
    }
  }

  lemma StrtolTwoHexDigits(a: char, b: char)
    requires IsDigitIn(a, 16) && IsDigitIn(b, 16)
    ensures Strtol([a, b], 16) == DigitValue(a) * 16 + DigitValue(b)
  {
    var s := [a, b];
    assert SkipSpaces(s) == 0;
    assert s[0..] == s;
    assert LeadingDigits(s, 16) == 2 by {
      assert s[1..][1..] == [];
    }
    assert s[..2] == s;
    assert s[..1] == [a];
    assert ValueOf([a], 16) == DigitValue(a) by { assert [a][..0] == []; }
  }

  /** Where the parts of a framed sentence sit. */
  lemma SentenceShape(body: seq<char>, sum: bv8)
    requires IsCString(body) && '*' !in body
    ensures IsCString(Sentence(body, sum))
    ensures IndexOf(Sentence(body, sum), '*') == |body| + 1
    ensures Sentence(body, sum)[1..|body| + 1] == body
    ensures Sentence(body, sum)[|body| + 2..] == HexByte(sum)
  {
    var s := Sentence(body, sum);
    forall i | 0 <= i < |s| ensures 0 < s[i] as int < 256 {
      if 1 <= i <= |body| { assert s[i] == body[i - 1]; }
    }
    forall k | 0 <= k < |body| + 1 ensures s[k] != '*' {
      if k > 0 { assert s[k] == body[k - 1]; }
    }
    IndexOfAt(s, '*', |body| + 1);
  }

  /** `strtol` reads back the two-digit suffix exactly. */
  lemma StrtolHexByte(b: bv8)
    ensures Strtol(HexByte(b), 16) == b as int
  {
    StrtolTwoHexDigits(HexDigit(b as int / 16), HexDigit(b as int % 16));
  }

  /** A sentence whose suffix is the XOR of its body passes the checksum test. */
  lemma ChecksumRoundTrip(body: seq<char>)
    requires IsCString(body) && '*' !in body && |body| >= 3
    ensures IsCString(Sentence(body, Xor(body)))
    ensures ChecksumValid(Sentence(body, Xor(body)))
  {
    SentenceShape(body, Xor(body));
    StrtolHexByte(Xor(body));
  }

  lemma IndexOfAt(s: seq<char>, c: char, i: nat)
    requires i < |s| && s[i] == c && forall k | 0 <= k < i :: s[k] != c
    ensures IndexOf(s, c) == i
  {
  }

  /**
   * Changing any one character of the body to a different byte (other than
   * `*`) makes the original checksum suffix fail.
   */
  lemma ChecksumDetectsChange(body: seq<char>, i: nat, c: char)
    requires IsCString(body) && '*' !in body && |body| >= 3
    requires i < |body| && c != body[i] && c != '*' && 0 < c as int < 256
    ensures IsCString(Sentence(body[i := c], Xor(body)))
    ensures !ChecksumValid(Sentence(body[i := c], Xor(body)))
  {
    var body' := body[i := c];
    UpdateKeepsBody(body, i, c);
    SentenceShape(body', Xor(body));
    StrtolHexByte(Xor(body));
    XorChanged(body, i, c);
  }

  /** Replacing a character of a `*`-free C string by another such character keeps both properties. */
  lemma UpdateKeepsBody(body: seq<char>, i: nat, c: char)
    requires IsCString(body) && '*' !in body
    requires i < |body| && c != '*' && 0 < c as int < 256
    ensures IsCString(body[i := c]) && '*' !in body[i := c]
  {
    var body' := body[i := c];
    forall k | 0 <= k < |body'| ensures 0 < body'[k] as int < 256 && body'[k] != '*' {
      if k != i { assert body'[k] == body[k]; }
    }
  }

  /** Replacing one byte by a different one changes the XOR. */
  lemma XorChanged(body: seq<char>, i: nat, c: char)
    requires IsCString(body) && i < |body| && c != body[i] && c as int < 256
    ensures Xor(body[i := c]) != Xor(body)
  {
    XorUpdate(body, i, c);
    ByteOfValue(body[i]);
    ByteOfValue(c);
    assert ByteOf(body[i]) != ByteOf(c);
  }

  lemma ByteOfValue(c: char)
    requires c as int < 256
    ensures ByteOf(c) as int == c as int
  {
    var v := c as int;
    assert v % 256 == v;
    assert (v as bv8) as int == v;
  }

  // ---------------------------------------------------------------------------
  // Fields
  // ---------------------------------------------------------------------------

  /** Number of commas in `s`. */
  function CommaCount(s: seq<char>): nat {
    multiset(s)[',']
  }

  /** Reference definition: `s` split at every comma. */
  function Fields(s: seq<char>): (fs: seq<seq<char>>)
    ensures |fs| >= 1
    decreases |s|
  {
    var i := IndexOf(s, ',');
    if i == |s| then [s] else [s[..i]] + Fields(s[i + 1..])
  }

  lemma {:induction false} FieldsCount(s: seq<char>)
    ensures |Fields(s)| == CommaCount(s) + 1
    decreases |s|
  {
    var i := IndexOf(s, ',');
    if i == |s| {
      assert ',' !in s;
    } else {
      FieldsCount(s[i + 1..]);
      assert s == s[..i] + [','] + s[i + 1..];
      assert ',' !in s[..i];
    }
  }

  lemma {:induction false} FieldsHaveNoComma(s: seq<char>)
    ensures forall k | 0 <= k < |Fields(s)| :: ',' !in Fields(s)[k]
    decreases |s|
  {
    var i := IndexOf(s, ',');
    if i < |s| {
      FieldsHaveNoComma(s[i + 1..]);
      assert ',' !in s[..i];
    }
  }

  /** The fields glued back together with commas. */
  function Join(fs: seq<seq<char>>): seq<char>
    requires |fs| >= 1
  {
    if |fs| == 1 then fs[0] else fs[0] + [','] + Join(fs[1..])
  }

  lemma {:induction false} JoinFields(s: seq<char>)
    ensures Join(Fields(s)) == s
    decreases |s|
  {
    var i := IndexOf(s, ',');
    if i < |s| {
      var rest := Fields(s[i + 1..]);
      FieldsCons(s, i);
      JoinFields(s[i + 1..]);
      JoinCons(s[..i], rest);
      SplitAround(s, i);
    }
  }

  /** Up to the first comma is the first field; the fields after it are those of the rest. */
  lemma FieldsCons(s: seq<char>, i: nat)
    requires i == IndexOf(s, ',') && i < |s|
    ensures Fields(s) == [s[..i]] + Fields(s[i + 1..])
  {
  }

  lemma ConsIndex(head: seq<char>, rest: seq<seq<char>>, index: nat)
    requires index >= 1
    ensures index < |[head] + rest| <==> index - 1 < |rest|
    ensures index < |[head] + rest| ==> ([head] + rest)[index] == rest[index - 1]
  {
  }

  lemma SplitAround(s: seq<char>, i: nat)
    requires i < |s|
    ensures s == s[..i] + [s[i]] + s[i + 1..]
  {
    assert s[i..] == [s[i]] + s[i + 1..];
    assert s == s[..i] + s[i..];
  }

  lemma JoinCons(head: seq<char>, rest: seq<seq<char>>)
    requires |rest| >= 1
    ensures Join([head] + rest) == head + [','] + Join(rest)
  {
    var fs := [head] + rest;
    assert fs[0] == head && fs[1..] == rest;
  }

  lemma {:induction false} FieldsJoin(fs: seq<seq<char>>)
    requires |fs| >= 1
    requires forall k | 0 <= k < |fs| :: ',' !in fs[k]
    ensures Fields(Join(fs)) == fs
  {
    if |fs| == 1 {
      assert IndexOf(fs[0], ',') == |fs[0]|;
    } else {
      var head, tail := fs[0], fs[1..];
      assert Join(fs) == head + [','] + Join(tail);
      assert ',' !in head;
      FieldsJoinStep(head, tail);
      forall k | 0 <= k < |tail|
        ensures ',' !in tail[k]
      {
        assert tail[k] == fs[k + 1];
      }
      FieldsJoin(tail);
      assert fs == [head] + tail;
    }
  }

  /** A comma-free first field ends at the first comma of the joined text. */
  lemma FieldsJoinStep(head: seq<char>, tail: seq<seq<char>>)
    requires |tail| >= 1 && ',' !in head
    ensures Fields(head + [','] + Join(tail)) == [head] + Fields(Join(tail))
  {
    var s := head + [','] + Join(tail);
    assert s[..|head|] == head;
    assert s[|head| + 1..] == Join(tail);
    IndexOfAt(s, ',', |head|);
  }

  /** `nmea_count_fields`: one more than the number of commas. */
  method CountFields(s: CString) returns (n: int)
    ensures n == CommaCount(s) + 1
  {
    var count := 0;
    var p := 0;
    while p < |s|
      invariant 0 <= p <= |s|
      invariant count == CommaCount(s[..p])
    {
      assert s[..p + 1] == s[..p] + [s[p]];
      if s[p] == ',' {
        count := count + 1;
      }
      p := p + 1;
    }
    assert s[..p] == s;
    n := count + 1;
  }

  /** The comma walk of `nmea_extract_field`: the text after the index-th comma, up to the next. */
  function FieldAt(s: seq<char>, index: nat): Option<seq<char>>
    decreases index
  {
    var i := IndexOf(s, ',');
    if index == 0 then Some(s[..i])
    else if i == |s| then None
    else FieldAt(s[i + 1..], index - 1)
  }

  lemma {:induction false} FieldAtIsField(s: seq<char>, index: nat)
    ensures FieldAt(s, index) == if index < |Fields(s)| then Some(Fields(s)[index]) else None
    decreases index
  {
    var i := IndexOf(s, ',');
    if i == |s| {
      assert Fields(s) == [s];
      assert s[..i] == s;
    } else {
      var rest := Fields(s[i + 1..]);
      FieldsCons(s, i);
      if index == 0 {
        assert FieldAt(s, 0) == Some(s[..i]);
      } else {
        assert FieldAt(s, index) == FieldAt(s[i + 1..], index - 1);
        FieldAtIsField(s[i + 1..], index - 1);
        ConsIndex(s[..i], rest, index);
      }
    }
  }

  /**
   * `nmea_extract_field(s, index, out, outSize)`: `Some(text)` is a return of
   * 0 with `text` in `out`, `None` a return of -1.  The field must fit the
   * buffer with its terminator before the cut at `*` is made.
   */
  function ExtractField(s: seq<char>, index: int, outSize: int): (r: Option<seq<char>>)
    ensures r.Some? ==> '*' !in r.value
  {
    if outSize <= 0 || index < 0 then None
    else
      match FieldAt(s, index)
      case None => None
      case Some(f) =>
        if |f| >= outSize then None else Some(f[..IndexOf(f, '*')])
  }

  /** What the extraction returns, in terms of the reference split. */
  lemma ExtractFieldIsField(s: seq<char>, index: int, outSize: int)
    ensures ExtractField(s, index, outSize).Some?
        <==> 0 < outSize && 0 <= index < |Fields(s)| && |Fields(s)[index]| < outSize
    ensures ExtractField(s, index, outSize).Some? ==>
      var f := Fields(s)[index];
      ExtractField(s, index, outSize).value == f[..IndexOf(f, '*')]
  {
    if outSize > 0 && index >= 0 {
      FieldAtIsField(s, index);
    }
  }

  // ---------------------------------------------------------------------------
  // C library conversions
  // ---------------------------------------------------------------------------

  /** `isspace` in the C locale. */
  predicate IsSpace(c: char) {
    c == ' ' || 9 <= c as int <= 13
  }

  predicate IsDigitIn(c: char, base: int) {
    ('0' <= c <= '9') || (base == 16 && (('a' <= c <= 'f') || ('A' <= c <= 'F')))
  }

  function DigitValue(c: char): int {
    if '0' <= c <= '9' then c as int - '0' as int
    else if 'a' <= c <= 'f' then c as int - 'a' as int + 10
    else if 'A' <= c <= 'F' then c as int - 'A' as int + 10
    else 0
  }

  function SkipSpaces(s: seq<char>): (n: nat)
    ensures n <= |s|
  {
    if s != [] && IsSpace(s[0]) then 1 + SkipSpaces(s[1..]) else 0
  }

  function LeadingDigits(s: seq<char>, base: int): (n: nat)
    ensures n <= |s|
  {
    if s != [] && IsDigitIn(s[0], base) then 1 + LeadingDigits(s[1..], base) else 0
  }

  /** The number a run of digits denotes. */
  function ValueOf(ds: seq<char>, base: int): int {
    if ds == [] then 0 else ValueOf(ds[..|ds| - 1], base) * base + DigitValue(ds[|ds| - 1])
  }

  /**
   * `strtol(s, NULL, base)` for base 10 or 16 with a 32-bit `long`: leading
   * white space, an optional sign, for base 16 an optional `0x`, then the
   * longest run of digits; out-of-range values saturate.
   */
  function Strtol(s: seq<char>, base: int): int {
    var t := s[SkipSpaces(s)..];
    var negative := |t| > 0 && t[0] == '-';
    var u := if |t| > 0 && (t[0] == '-' || t[0] == '+') then t[1..] else t;
    var w := if base == 16 && |u| >= 2 && u[0] == '0' && (u[1] == 'x' || u[1] == 'X') then u[2..] else u;
    var v := ValueOf(w[..LeadingDigits(w, base)], base);
    ClampLong(if negative then -v else v)
  }

  /** `atoi`, which is `(int)strtol(s, NULL, 10)`. */
  function Atoi(s: seq<char>): int {
    Strtol(s, 10)
  }

  /**
   * One `%2d` conversion of `sscanf`: white space skipped, then at most two
   * characters, a sign counting as one of them; `None` is a matching failure.
   */
  function Scan2d(s: seq<char>): Option<(int, seq<char>)> {
    var t := s[SkipSpaces(s)..];
    if |t| >= 1 && (t[0] == '+' || t[0] == '-') then
      if |t| >= 2 && IsDigitIn(t[1], 10) then
        Some((if t[0] == '-' then -DigitValue(t[1]) else DigitValue(t[1]), t[2..]))
      else None
    else if |t| >= 1 && IsDigitIn(t[0], 10) then
      if |t| >= 2 && IsDigitIn(t[1], 10) then
        Some((DigitValue(t[0]) * 10 + DigitValue(t[1]), t[2..]))
      else Some((DigitValue(t[0]), t[1..]))
    else None
  }

  /**
   * `sscanf(f, "%2d%2d%2d", &a, &b, &c)`: the targets matched before the first
   * failure receive their values, the rest keep what they held.
   */
  function Scan3(f: seq<char>, a: int, b: int, c: int): (int, int, int) {
    match Scan2d(f)
    case None => (a, b, c)
    case Some((a', r1)) =>
      match Scan2d(r1)
      case None => (a', b, c)
      case Some((b', r2)) =>
        match Scan2d(r2)
        case None => (a', b', c)
        case Some((c', _)) => (a', b', c')
  }

  /** `sscanf(f, "%2d%2d%2d.%2d", &h, &m, &s, &cs)`, with the same partial-assignment rule. */
  function ScanTime(f: seq<char>, h: int, m: int, sec: int, cs: int): (int, int, int, int) {
    match Scan2d(f)
    case None => (h, m, sec, cs)
    case Some((h', r1)) =>
      match Scan2d(r1)
      case None => (h', m, sec, cs)
      case Some((m', r2)) =>
        match Scan2d(r2)
        case None => (h', m', sec, cs)
        case Some((sec', r3)) =>
          if |r3| >= 1 && r3[0] == '.' then
            match Scan2d(r3[1..])
            case None => (h', m', sec', cs)
            case Some((cs', _)) => (h', m', sec', cs')
          else (h', m', sec', cs)
  }

  predicate AllDigits(s: seq<char>) {
    forall i | 0 <= i < |s| :: '0' <= s[i] <= '9'
  }

  function D(c: char): int { c as int - '0' as int }

  /** Six digits, a point and two digits: every target gets its two-digit value. */
  lemma ScanTimeDigits(f: seq<char>, h: int, m: int, sec: int, cs: int)
    requires |f| >= 9 && AllDigits(f[..6]) && f[6] == '.' && AllDigits(f[7..9])
    ensures ScanTime(f, h, m, sec, cs)
         == (D(f[0]) * 10 + D(f[1]), D(f[2]) * 10 + D(f[3]), D(f[4]) * 10 + D(f[5]), D(f[7]) * 10 + D(f[8]))
  {
    assert f[0] == f[..6][0] && f[1] == f[..6][1] && f[2] == f[..6][2];
    assert f[3] == f[..6][3] && f[4] == f[..6][4] && f[5] == f[..6][5];
    assert f[7] == f[7..9][0] && f[8] == f[7..9][1];
    assert SkipSpaces(f) == 0 && f[0..] == f;
    var r1 := f[2..];
    assert SkipSpaces(r1) == 0 && r1[0..] == r1;
    var r2 := f[4..];
    assert r1[2..] == r2;
    assert SkipSpaces(r2) == 0 && r2[0..] == r2;
    var r3 := f[6..];
    assert r2[2..] == r3;
    var r4 := f[7..];
    assert r3[1..] == r4;
    assert SkipSpaces(r4) == 0 && r4[0..] == r4;
  }

  /** Six digits: day, month and two-digit year. */
  lemma Scan3Digits(f: seq<char>, a: int, b: int, c: int)
    requires |f| >= 6 && AllDigits(f[..6])
    ensures Scan3(f, a, b, c) == (D(f[0]) * 10 + D(f[1]), D(f[2]) * 10 + D(f[3]), D(f[4]) * 10 + D(f[5]))
  {
    assert f[0] == f[..6][0] && f[1] == f[..6][1] && f[2] == f[..6][2];
    assert f[3] == f[..6][3] && f[4] == f[..6][4] && f[5] == f[..6][5];
    assert SkipSpaces(f) == 0 && f[0..] == f;
    var r1 := f[2..];
    assert SkipSpaces(r1) == 0 && r1[0..] == r1;
    var r2 := f[4..];
    assert r1[2..] == r2;
    assert SkipSpaces(r2) == 0 && r2[0..] == r2;
  }
}
