/** The text primitives on both sides of a ballot: splitting and joining, decimal numbers, Base64
    (section 4 of RFC 4648) and UTF-8. A byte string is a `string` whose characters are below 256. */
module Text {
  import opened Wrappers

  predicate IsBytes(s: string) {
    forall i :: 0 <= i < |s| ==> s[i] as int < 256
  }

  type ByteString = s: string | IsBytes(s) witness []

  // ----- Split and join on one character

  function Split(s: string, sep: char): (parts: seq<string>)
    ensures |parts| >= 1
  {
    if s == [] then [[]]
    else
      var rest := Split(s[1..], sep);
      if s[0] == sep then [[]] + rest else [[s[0]] + rest[0]] + rest[1..]
  }

  function Join(parts: seq<string>, sep: char): (s: string) {
    if parts == [] then []
    else if |parts| == 1 then parts[0]
    else parts[0] + [sep] + Join(parts[1..], sep)
  }

  /** Splitting finds the first separator. */
  lemma {:induction false} SplitFirst(head: string, sep: char, tail: string)
    requires sep !in head
    ensures Split(head + [sep] + tail, sep) == [head] + Split(tail, sep)
  {
    var s := head + [sep] + tail;
    if head == [] {
      assert s[1..] == tail;
    } else {
      SplitFirst(head[1..], sep, tail);
      assert s[1..] == head[1..] + [sep] + tail;
      assert [s[0]] + head[1..] == head;
    }
  }

  lemma {:induction false} SplitNone(s: string, sep: char)
    requires sep !in s
    ensures Split(s, sep) == [s]
  {
    if s != [] {
      SplitNone(s[1..], sep);
      assert [s[0]] + s[1..] == s;
    }
  }

  lemma {:induction false} SplitJoin(parts: seq<string>, sep: char)
    requires parts != []
    requires forall i :: 0 <= i < |parts| ==> sep !in parts[i]
    ensures Split(Join(parts, sep), sep) == parts
  {
    if |parts| == 1 {
      SplitNone(parts[0], sep);
    } else {
      SplitJoin(parts[1..], sep);
      SplitFirst(parts[0], sep, Join(parts[1..], sep));
    }
  }

  lemma {:induction false} JoinExcludes(parts: seq<string>, sep: char, c: char)
    requires c != sep
    requires forall i :: 0 <= i < |parts| ==> c !in parts[i]
    ensures c !in Join(parts, sep)
  {
    if |parts| > 1 {
      JoinExcludes(parts[1..], sep, c);
    }
  }

  // ----- Decimal numbers

  predicate IsDigit(c: char) { '0' <= c <= '9' }

  function DigitValue(c: char): (d: int)
    requires IsDigit(c)
    ensures 0 <= d <= 9
  {
    c as int - '0' as int
  }

  function Digit(d: int): (c: char)
    requires 0 <= d <= 9
    ensures IsDigit(c) && DigitValue(c) == d
  {
    ('0' as int + d) as char
  }

  predicate AllDigits(s: string) {
    forall i :: 0 <= i < |s| ==> IsDigit(s[i])
  }

  function DecimalValue(s: string): (n: nat)
    requires AllDigits(s)
  {
    if s == [] then 0 else DecimalValue(s[..|s| - 1]) * 10 + DigitValue(s[|s| - 1])
  }

  function Decimal(n: nat): (s: string)
    ensures |s| >= 1 && AllDigits(s)
  {
    if n < 10 then [Digit(n)] else Decimal(n / 10) + [Digit(n % 10)]
  }

  lemma {:induction false} DecimalRoundTrip(n: nat)
    ensures DecimalValue(Decimal(n)) == n
  {
    if n < 10 {
      assert Decimal(n)[..0] == [];
    } else {
      DecimalRoundTrip(n / 10);
      assert Decimal(n)[..|Decimal(n)| - 1] == Decimal(n / 10);
    }
  }

  lemma DecimalLength(n: nat)
    requires n < 1000
    ensures |Decimal(n)| <= 3
  {
    if n >= 100 { assert |Decimal(n / 10)| <= 2; }
  }

  /** A signed decimal literal, as `strconv.ParseInt` in base 10 and `strconv.Atoi` read one. Callers
      check the range, so the value is left unbounded. */
  function ParseSigned(s: string): (r: Option<int>) {
    if s == [] then None
    else if s[0] == '+' || s[0] == '-' then
      var digits := s[1..];
      if digits == [] || !AllDigits(digits) then None
      else
        var n: int := DecimalValue(digits);
        Some(if s[0] == '-' then -n else n)
    else if AllDigits(s) then Some(DecimalValue(s)) else None
  }

  function ParseInt8(s: string): (r: Option<int>)
    ensures r.Some? ==> -128 <= r.value <= 127
  {
    match ParseSigned(s)
    case Some(n) => if -128 <= n <= 127 then Some(n) else None
    case None => None
  }

  lemma ParseDecimal(n: nat)
    ensures ParseSigned(Decimal(n)) == Some(n)
  {
    DecimalRoundTrip(n);
    assert IsDigit(Decimal(n)[0]);
  }

  /** `strconv.ParseBool`. */
  function ParseBool(s: string): (r: Option<bool>) {
    if s in ["1", "t", "T", "true", "TRUE", "True"] then Some(true)
    else if s in ["0", "f", "F", "false", "FALSE", "False"] then Some(false)
    else None
  }

  // ----- Base64

  function Sextet(n: int): (c: char)
    requires 0 <= n < 64
  {
    if n < 26 then ('A' as int + n) as char
    else if n < 52 then ('a' as int + n - 26) as char
    else if n < 62 then ('0' as int + n - 52) as char
    else if n == 62 then '+' else '/'
  }

  function SextetValue(c: char): (r: Option<int>)
    ensures r.Some? ==> 0 <= r.value < 64
  {
    if 'A' <= c <= 'Z' then Some(c as int - 'A' as int)
    else if 'a' <= c <= 'z' then Some(c as int - 'a' as int + 26)
    else if '0' <= c <= '9' then Some(c as int - '0' as int + 52)
    else if c == '+' then Some(62) else if c == '/' then Some(63) else None
  }

  function Base64Encode(s: string): (e: string)
    requires IsBytes(s)
  {
    if s == [] then []
    else
      var a := s[0] as int;
      if |s| == 1 then [Sextet(a / 4), Sextet(a % 4 * 16), '=', '=']
      else
        var b := s[1] as int;
        if |s| == 2 then [Sextet(a / 4), Sextet(a % 4 * 16 + b / 16), Sextet(b % 16 * 4), '=']
        else
          var c := s[2] as int;
          [Sextet(a / 4), Sextet(a % 4 * 16 + b / 16), Sextet(b % 16 * 4 + c / 64), Sextet(c % 64)]
              + Base64Encode(s[3..])
  }

  function FirstByte(x: int, y: int): (c: char)
    requires 0 <= x < 64 && 0 <= y < 64
    ensures c as int < 256
  {
    (x * 4 + y / 16) as char
  }

  function SecondByte(y: int, z: int): (c: char)
    requires 0 <= y < 64 && 0 <= z < 64
    ensures c as int < 256
  {
    (y % 16 * 16 + z / 4) as char
  }

  function ThirdByte(z: int, w: int): (c: char)
    requires 0 <= z < 64 && 0 <= w < 64
    ensures c as int < 256
  {
    (z % 4 * 64 + w) as char
  }

  /** Padded groups of four, the padding in the last group only; unused trailing bits are ignored. */
  function DecodeGroups(s: string): (r: Option<string>)
    ensures r.Some? ==> IsBytes(r.value)
  {
    if s == [] then Some([])
    else if |s| < 4 then None
    else
      var x, y := SextetValue(s[0]), SextetValue(s[1]);
      if x.None? || y.None? then None
      else if |s| == 4 && s[2] == '=' && s[3] == '=' then Some([FirstByte(x.value, y.value)])
      else
        var z := SextetValue(s[2]);
        if z.None? then None
        else if |s| == 4 && s[3] == '=' then Some([FirstByte(x.value, y.value), SecondByte(y.value, z.value)])
        else
          var w, rest := SextetValue(s[3]), DecodeGroups(s[4..]);
          if w.None? || rest.None? then None
          else Some([FirstByte(x.value, y.value), SecondByte(y.value, z.value), ThirdByte(z.value, w.value)]
              + rest.value)
  }

  function StripLineBreaks(s: string): (t: string) {
    if s == [] then []
    else if s[0] == '\n' || s[0] == '\r' then StripLineBreaks(s[1..])
    else [s[0]] + StripLineBreaks(s[1..])
  }

  /** The decoder of the contract: line breaks are skipped, padding is mandatory. */
  function Base64Decode(s: string): (r: Option<string>)
    ensures r.Some? ==> IsBytes(r.value)
  {
    DecodeGroups(StripLineBreaks(s))
  }

  /** Not a separator of the ballot format, nor a line break the decoder skips. */
  predicate Inert(c: char) {
    c != ':' && c != ',' && c != '\r' && c != '\n'
  }

  lemma SextetRoundTrip(n: int)
    requires 0 <= n < 64
    ensures SextetValue(Sextet(n)) == Some(n)
    ensures Inert(Sextet(n))
  {
  }

  lemma BytesOfSextets(a: int, b: int, c: int)
    requires 0 <= a < 256 && 0 <= b < 256 && 0 <= c < 256
    ensures FirstByte(a / 4, a % 4 * 16 + b / 16) as int == a
    ensures SecondByte(a % 4 * 16 + b / 16, b % 16 * 4 + c / 64) as int == b
    ensures ThirdByte(b % 16 * 4 + c / 64, c % 64) as int == c
  {
  }

  lemma DecodeFour(x: int, y: int, z: int, w: int, tail: string)
    requires 0 <= x < 64 && 0 <= y < 64 && 0 <= z < 64 && 0 <= w < 64
    requires DecodeGroups(tail).Some?
    ensures DecodeGroups([Sextet(x), Sextet(y), Sextet(z), Sextet(w)] + tail)
         == Some([FirstByte(x, y), SecondByte(y, z), ThirdByte(z, w)] + DecodeGroups(tail).value)
  {
    SextetRoundTrip(x);
    SextetRoundTrip(y);
    SextetRoundTrip(z);
    SextetRoundTrip(w);
    assert ([Sextet(x), Sextet(y), Sextet(z), Sextet(w)] + tail)[4..] == tail;
  }

  lemma DecodeTail(x: int, y: int, z: int)
    requires 0 <= x < 64 && 0 <= y < 64 && 0 <= z < 64
    ensures DecodeGroups([Sextet(x), Sextet(y), '=', '=']) == Some([FirstByte(x, y)])
    ensures DecodeGroups([Sextet(x), Sextet(y), Sextet(z), '=']) == Some([FirstByte(x, y), SecondByte(y, z)])
  {
    SextetRoundTrip(x);
    SextetRoundTrip(y);
    SextetRoundTrip(z);
  }

  lemma BytesOfTail(a: int, b: int)
    requires 0 <= a < 256 && 0 <= b < 256
    ensures FirstByte(a / 4, a % 4 * 16) as int == a
    ensures FirstByte(a / 4, a % 4 * 16 + b / 16) as int == a
    ensures SecondByte(a % 4 * 16 + b / 16, b % 16 * 4) as int == b
  {
  }

  lemma DecodeOne(s: string)
    requires IsBytes(s) && |s| == 1
    ensures DecodeGroups(Base64Encode(s)) == Some(s)
  {
    hide FirstByte, SecondByte, Sextet, DecodeGroups;
    var a := s[0] as int;
    BytesOfTail(a, 0);
    DecodeTail(a / 4, a % 4 * 16, 0);
    assert s == [s[0]];
  }

  lemma DecodeTwo(s: string)
    requires IsBytes(s) && |s| == 2
    ensures DecodeGroups(Base64Encode(s)) == Some(s)
  {
    hide FirstByte, SecondByte, Sextet, DecodeGroups;
    var a, b := s[0] as int, s[1] as int;
    BytesOfTail(a, b);
    DecodeTail(a / 4, a % 4 * 16 + b / 16, b % 16 * 4);
    assert s == [s[0], s[1]];
  }

  lemma DecodeNothing()
    ensures DecodeGroups([]) == Some([])
  {
  }

  lemma {:induction false} DecodeEncoded(s: string)
    requires IsBytes(s)
    ensures DecodeGroups(Base64Encode(s)) == Some(s)
  {
    hide FirstByte, SecondByte, ThirdByte, Sextet, DecodeGroups;
    if |s| > 2 {
      var a, b, c := s[0] as int, s[1] as int, s[2] as int;
      BytesOfSextets(a, b, c);
      DecodeEncoded(s[3..]);
      DecodeFour(a / 4, a % 4 * 16 + b / 16, b % 16 * 4 + c / 64, c % 64, Base64Encode(s[3..]));
      assert [s[0], s[1], s[2]] + s[3..] == s;
    } else if |s| == 2 {
      DecodeTwo(s);
    } else if |s| == 1 {
      DecodeOne(s);
    } else {
      DecodeNothing();
    }
  }

  predicate AllInert(s: string) {
    forall i :: 0 <= i < |s| ==> Inert(s[i])
  }

  lemma ShortShape(s: string)
    requires IsBytes(s) && 1 <= |s| <= 2
    ensures |Base64Encode(s)| == 4 && AllInert(Base64Encode(s))
  {
    var a, b := s[0] as int, if |s| == 2 then s[1] as int else 0;
    SextetRoundTrip(a / 4);
    SextetRoundTrip(a % 4 * 16);
    SextetRoundTrip(a % 4 * 16 + b / 16);
    SextetRoundTrip(b % 16 * 4);
  }

  lemma {:induction false} EncodedShape(s: string)
    requires IsBytes(s)
    ensures |Base64Encode(s)| == (|s| + 2) / 3 * 4
    ensures AllInert(Base64Encode(s))
  {
    hide Sextet;
    if |s| > 2 {
      var a, b, c := s[0] as int, s[1] as int, s[2] as int;
      EncodedShape(s[3..]);
      SextetRoundTrip(a / 4);
      SextetRoundTrip(a % 4 * 16 + b / 16);
      SextetRoundTrip(b % 16 * 4 + c / 64);
      SextetRoundTrip(c % 64);
    } else if s != [] {
      ShortShape(s);
    }
  }

  lemma {:induction false} StripNothing(s: string)
    requires AllInert(s)
    ensures StripLineBreaks(s) == s
  {
    if s != [] {
      StripNothing(s[1..]);
    }
  }

  /** Base64 round trip for every byte string. */
  lemma Base64RoundTrip(s: string)
    requires IsBytes(s)
    ensures Base64Decode(Base64Encode(s)) == Some(s)
  {
    EncodedShape(s);
    StripNothing(Base64Encode(s));
    DecodeEncoded(s);
  }

  // ----- UTF-16 to UTF-8, as `Buffer.from` converts

  type Unit = n: int | 0 <= n < 0x1_0000

  type JsString = seq<Unit>

  function Utf8(s: JsString): (b: string)
    ensures IsBytes(b) && |b| <= 3 * |s|
    ensures s != [] ==> b != []
  {
    if s == [] then []
    else if 0xD800 <= s[0] < 0xDC00 && |s| > 1 && 0xDC00 <= s[1] < 0xE000 then
      var high: int, low: int := s[0] - 0xD800, s[1] - 0xDC00;
      var p: int := 0x1_0000 + high * 0x400 + low;
      [(0xF0 + p / 0x4_0000) as char, (0x80 + p / 0x1000 % 0x40) as char,
       (0x80 + p / 0x40 % 0x40) as char, (0x80 + p % 0x40) as char] + Utf8(s[2..])
    else if 0xD800 <= s[0] < 0xE000 then
      // a lone surrogate becomes U+FFFD
      [0xEF as char, 0xBF as char, 0xBD as char] + Utf8(s[1..])
    else if s[0] < 0x80 then [s[0] as char] + Utf8(s[1..])
    else if s[0] < 0x800 then [(0xC0 + s[0] / 0x40) as char, (0x80 + s[0] % 0x40) as char] + Utf8(s[1..])
    else
      [(0xE0 + s[0] / 0x1000) as char, (0x80 + s[0] / 0x40 % 0x40) as char, (0x80 + s[0] % 0x40) as char] + Utf8(s[1..])
  }

  /** The value of a continuation byte. */
  function Continuation(c: char): (r: Option<int>)
    ensures r.Some? ==> 0 <= r.value < 0x40
  {
    if 0x80 <= c as int < 0xC0 then Some(c as int - 0x80) else None
  }

  /** The UTF-16 text under some UTF-8 bytes (section 3 of RFC 3629). */
  function Utf16(b: string): (r: Option<JsString>) {
    if b == [] then Some([])
    else
      var lead := b[0] as int;
      if lead < 0x80 then
        match Utf16(b[1..]) case Some(t) => Some([lead] + t) case None => None
      else if 0xC0 <= lead < 0xE0 && |b| > 1 then
        var x, rest := Continuation(b[1]), Utf16(b[2..]);
        if x.None? || rest.None? then None else Some([(lead - 0xC0) * 0x40 + x.value] + rest.value)
      else if 0xE0 <= lead < 0xF0 && |b| > 2 then
        var x, y, rest := Continuation(b[1]), Continuation(b[2]), Utf16(b[3..]);
        if x.None? || y.None? || rest.None? then None
        else Some([(lead - 0xE0) * 0x1000 + x.value * 0x40 + y.value] + rest.value)
      else if 0xF0 <= lead < 0xF5 && |b| > 3 then
        var x, y, z, rest := Continuation(b[1]), Continuation(b[2]), Continuation(b[3]), Utf16(b[4..]);
        if x.None? || y.None? || z.None? || rest.None? then None
        else match Surrogates((lead - 0xF0) * 0x4_0000 + x.value * 0x1000 + y.value * 0x40 + z.value)
          case Some(pair) => Some(pair + rest.value)
          case None => None
      else None
  }

  /** A code point above the first plane as two units. */
  function Surrogates(p: int): (r: Option<JsString>) {
    if 0x1_0000 <= p < 0x11_0000 then Some([0xD800 + (p - 0x1_0000) / 0x400, 0xDC00 + (p - 0x1_0000) % 0x400]) else None
  }

  predicate PairAt(s: JsString) {
    |s| > 1 && 0xD800 <= s[0] < 0xDC00 && 0xDC00 <= s[1] < 0xE000
  }

  /** The text with every lone surrogate replaced by U+FFFD. */
  function Repaired(s: JsString): (t: JsString) {
    if s == [] then []
    else if PairAt(s) then s[..2] + Repaired(s[2..])
    else if 0xD800 <= s[0] < 0xE000 then [0xFFFD] + Repaired(s[1..])
    else [s[0]] + Repaired(s[1..])
  }

  /** Every surrogate belongs to a pair. */
  predicate WellPaired(s: JsString) {
    s != [] ==> if PairAt(s) then WellPaired(s[2..]) else !(0xD800 <= s[0] < 0xE000) && WellPaired(s[1..])
  }

  lemma {:induction false} RepairedSame(s: JsString)
    ensures |Repaired(s)| == |s|
    ensures Repaired(s) == s <==> WellPaired(s)
  {
    if s != [] {
      if PairAt(s) {
        RepairedSame(s[2..]);
        assert s == s[..2] + s[2..];
        assert Repaired(s)[2..] == Repaired(s[2..]);
      } else {
        RepairedSame(s[1..]);
        assert s == [s[0]] + s[1..];
        assert Repaired(s)[1..] == Repaired(s[1..]);
      }
    }
  }

  lemma OneByte(u: Unit, tail: string)
    requires u < 0x80 && Utf16(tail).Some?
    ensures Utf16([u as char] + tail) == Some([u] + Utf16(tail).value)
  {
    assert ([u as char] + tail)[1..] == tail;
  }

  lemma ContinuationOf(x: int)
    requires 0 <= x < 0x40
    ensures Continuation((0x80 + x) as char) == Some(x)
  {
  }

  lemma LeadTwo(a: int, x: int, tail: string)
    requires 0 <= a < 0x20 && 0 <= x < 0x40 && Utf16(tail).Some?
    ensures Utf16([(0xC0 + a) as char, (0x80 + x) as char] + tail) == Some([a * 0x40 + x] + Utf16(tail).value)
  {
    ContinuationOf(x);
    hide Continuation;
    assert ([(0xC0 + a) as char, (0x80 + x) as char] + tail)[2..] == tail;
  }

  lemma LeadThree(a: int, x: int, y: int, tail: string)
    requires 0 <= a < 0x10 && 0 <= x < 0x40 && 0 <= y < 0x40 && Utf16(tail).Some?
    ensures Utf16([(0xE0 + a) as char, (0x80 + x) as char, (0x80 + y) as char] + tail)
         == Some([a * 0x1000 + x * 0x40 + y] + Utf16(tail).value)
  {
    ContinuationOf(x);
    ContinuationOf(y);
    hide Continuation;
    assert ([(0xE0 + a) as char, (0x80 + x) as char, (0x80 + y) as char] + tail)[3..] == tail;
  }

  lemma LeadFour(a: int, x: int, y: int, z: int, pair: JsString, tail: string)
    requires 0 <= a < 5 && 0 <= x < 0x40 && 0 <= y < 0x40 && 0 <= z < 0x40 && Utf16(tail).Some?
    requires Surrogates(a * 0x4_0000 + x * 0x1000 + y * 0x40 + z) == Some(pair)
    ensures Utf16([(0xF0 + a) as char, (0x80 + x) as char, (0x80 + y) as char, (0x80 + z) as char] + tail)
         == Some(pair + Utf16(tail).value)
  {
    ContinuationOf(x);
    ContinuationOf(y);
    ContinuationOf(z);
    hide Continuation, Surrogates;
    assert ([(0xF0 + a) as char, (0x80 + x) as char, (0x80 + y) as char, (0x80 + z) as char] + tail)[4..] == tail;
  }

  lemma SplitTwo(u: int)
    requires 0 <= u < 0x800
    ensures 0 <= u / 0x40 < 0x20 && u / 0x40 * 0x40 + u % 0x40 == u
  {
  }

  lemma SplitThree(u: int)
    requires 0 <= u < 0x1_0000
    ensures 0 <= u / 0x1000 < 0x10 && u / 0x1000 * 0x1000 + u / 0x40 % 0x40 * 0x40 + u % 0x40 == u
  {
    assert u / 0x1000 == u / 0x40 / 0x40;
  }

  lemma SplitFour(p: int)
    requires 0 <= p < 0x11_0000
    ensures 0 <= p / 0x4_0000 < 5
    ensures p / 0x4_0000 * 0x4_0000 + p / 0x1000 % 0x40 * 0x1000 + p / 0x40 % 0x40 * 0x40 + p % 0x40 == p
  {
    assert p / 0x1000 == p / 0x40 / 0x40 && p / 0x4_0000 == p / 0x1000 / 0x40;
  }

  lemma TwoBytes(u: Unit, tail: string)
    requires 0x80 <= u < 0x800 && Utf16(tail).Some?
    ensures Utf16([(0xC0 + u / 0x40) as char, (0x80 + u % 0x40) as char] + tail) == Some([u] + Utf16(tail).value)
  {
    hide Utf16;
    SplitTwo(u);
    LeadTwo(u / 0x40, u % 0x40, tail);
  }

  lemma ThreeBytes(u: Unit, tail: string)
    requires 0x800 <= u && Utf16(tail).Some?
    ensures Utf16([(0xE0 + u / 0x1000) as char, (0x80 + u / 0x40 % 0x40) as char, (0x80 + u % 0x40) as char] + tail)
         == Some([u] + Utf16(tail).value)
  {
    hide Utf16;
    SplitThree(u);
    LeadThree(u / 0x1000, u / 0x40 % 0x40, u % 0x40, tail);
  }

  lemma SurrogatesOf(high: int, low: int)
    requires 0 <= high < 0x400 && 0 <= low < 0x400
    ensures Surrogates(0x1_0000 + high * 0x400 + low) == Some([0xD800 + high, 0xDC00 + low])
  {
  }

  lemma FourBytes(high: int, low: int, p: int, tail: string)
    requires 0 <= high < 0x400 && 0 <= low < 0x400 && p == 0x1_0000 + high * 0x400 + low && Utf16(tail).Some?
    ensures Utf16([(0xF0 + p / 0x4_0000) as char, (0x80 + p / 0x1000 % 0x40) as char,
                   (0x80 + p / 0x40 % 0x40) as char, (0x80 + p % 0x40) as char] + tail)
         == Some([0xD800 + high, 0xDC00 + low] + Utf16(tail).value)
  {
    hide Utf16, Surrogates;
    SplitFour(p);
    SurrogatesOf(high, low);
    LeadFour(p / 0x4_0000, p / 0x1000 % 0x40, p / 0x40 % 0x40, p % 0x40, [0xD800 + high, 0xDC00 + low], tail);
  }

  /** Decoding the UTF-8 bytes of a text gives the text with its lone surrogates replaced; so it gives the
      text back exactly when every surrogate is paired. */
  lemma {:induction false} Utf8RoundTrip(s: JsString)
    ensures Utf16(Utf8(s)) == Some(Repaired(s))
    ensures Utf16(Utf8(s)) == Some(s) <==> WellPaired(s)
  {
    Utf8Decodes(s);
    RepairedSame(s);
  }

  lemma PairDecodes(s: JsString)
    requires PairAt(s) && Utf16(Utf8(s[2..])).Some?
    ensures Utf16(Utf8(s)) == Some(s[..2] + Utf16(Utf8(s[2..])).value)
  {
    hide Utf16;
    var high: int, low: int := s[0] - 0xD800, s[1] - 0xDC00;
    var p: int := 0x1_0000 + high * 0x400 + low;
    FourBytes(high, low, p, Utf8(s[2..]));
    assert s[..2] == [0xD800 + high, 0xDC00 + low];
  }

  lemma UnitDecodes(s: JsString)
    requires s != [] && !PairAt(s) && Utf16(Utf8(s[1..])).Some?
    ensures Utf16(Utf8(s)) == Some([if 0xD800 <= s[0] < 0xE000 then 0xFFFD else s[0]] + Utf16(Utf8(s[1..])).value)
  {
    hide Utf16;
    if s[0] < 0x80 {
      OneByte(s[0], Utf8(s[1..]));
    } else if s[0] < 0x800 {
      TwoBytes(s[0], Utf8(s[1..]));
    } else {
      var u: Unit := if 0xD800 <= s[0] < 0xE000 then 0xFFFD else s[0];
      WideUnit(s, u);
      ThreeBytes(u, Utf8(s[1..]));
    }
  }

  lemma WideUnit(s: JsString, u: Unit)
    requires s != [] && !PairAt(s) && s[0] >= 0x800 && u == if 0xD800 <= s[0] < 0xE000 then 0xFFFD else s[0]
    ensures Utf8(s)
         == [(0xE0 + u / 0x1000) as char, (0x80 + u / 0x40 % 0x40) as char, (0x80 + u % 0x40) as char] + Utf8(s[1..])
  {
  }

  lemma {:induction false} Utf8Decodes(s: JsString)
    ensures Utf16(Utf8(s)) == Some(Repaired(s))
  {
    hide Utf16, Utf8;
    if s == [] {
      Utf16Nothing();
    } else if PairAt(s) {
      Utf8Decodes(s[2..]);
      PairDecodes(s);
    } else {
      Utf8Decodes(s[1..]);
      UnitDecodes(s);
    }
  }

  lemma Utf16Nothing()
    ensures Utf16(Utf8([])) == Some([])
  {
  }

  // ----- The alphabets themselves

  const ALPHABET := "ABCDEFGHIJKLMNOPQRSTUVWXYZabcdefghijklmnopqrstuvwxyz0123456789+/"

  /** Table 1 of RFC 4648. */
  lemma SextetAlphabet(n: int)
    requires 0 <= n < 64
    ensures |ALPHABET| == 64 && Sextet(n) == ALPHABET[n]
  {
    AlphabetParts();
    if n < 26 {
      UpperCase(n);
    } else if n < 52 {
      LowerCase(n - 26);
    } else if n < 62 {
      Digits(n - 52);
    }
  }

  lemma AlphabetParts()
    ensures ALPHABET == "ABCDEFGHIJKLMNOPQRSTUVWXYZ" + "abcdefghijklmnopqrstuvwxyz" + "0123456789" + "+/"
  {
  }

  lemma UpperCase(n: int)
    requires 0 <= n < 26
    ensures "ABCDEFGHIJKLMNOPQRSTUVWXYZ"[n] == ('A' as int + n) as char
  {
  }

  lemma LowerCase(n: int)
    requires 0 <= n < 26
    ensures "abcdefghijklmnopqrstuvwxyz"[n] == ('a' as int + n) as char
  {
  }

  lemma Digits(n: int)
    requires 0 <= n < 10
    ensures "0123456789"[n] == ('0' as int + n) as char
  {
  }

  /** Test vectors of section 10 of RFC 4648. */
  lemma Base64Vectors()
    ensures Base64Encode("") == "" && Base64Encode("f") == "Zg==" && Base64Encode("fo") == "Zm8="
    ensures Base64Encode("foo") == "Zm9v"
  {
    assert "foo"[3..] == "";
  }

  /** One character of each length in UTF-8: U+0024, U+00A3, U+20AC and U+10348. */
  lemma Utf8Vectors()
    ensures Utf8([0x24]) == [0x24 as char]
    ensures Utf8([0xA3]) == [0xC2 as char, 0xA3 as char]
    ensures Utf8([0x20AC]) == [0xE2 as char, 0x82 as char, 0xAC as char]
    ensures Utf8([0xD800, 0xDF48]) == [0xF0 as char, 0x90 as char, 0x8D as char, 0x88 as char]
  {
    var a: JsString, b: JsString, c: JsString, d: JsString := [0x24], [0xA3], [0x20AC], [0xD800, 0xDF48];
    assert a[1..] == [] && b[1..] == [] && c[1..] == [] && d[2..] == [];
  }

  // ----- What the decoder accepts

  /** Whole groups of four characters of the alphabet, but for at most two padding characters at the end. */
  predicate WellPadded(t: string, pads: nat) {
    && |t| % 4 == 0 && pads <= 2 && pads <= |t|
    && forall i :: 0 <= i < |t| ==> if i < |t| - pads then InAlphabet(t[i]) else t[i] == '='
  }

  predicate InAlphabet(c: char) {
    'A' <= c <= 'Z' || 'a' <= c <= 'z' || '0' <= c <= '9' || c == '+' || c == '/'
  }

  lemma AlphabetMeans(c: char)
    ensures InAlphabet(c) <==> SextetValue(c).Some?
    ensures SextetValue(c).Some? ==> Sextet(SextetValue(c).value) == c && c != '='
  {
  }

  /** Bytes and characters agree in all characters but the last before the padding, whose unused bits are
      ignored; without padding, in all. */
  predicate Spells(b: string, t: string, pads: nat)
    requires IsBytes(b)
  {
    && |b| + pads == |t| / 4 * 3 && |Base64Encode(b)| == |t|
    && (pads == 0 ==> Base64Encode(b) == t)
    && forall i :: 0 <= i < |t| && i + pads + 1 < |t| ==> Base64Encode(b)[i] == t[i]
  }

  lemma SextetsOfBytes(x: int, y: int, z: int, w: int)
    requires 0 <= x < 64 && 0 <= y < 64 && 0 <= z < 64 && 0 <= w < 64
    ensures var a, b, c := FirstByte(x, y) as int, SecondByte(y, z) as int, ThirdByte(z, w) as int;
            a / 4 == x && a % 4 * 16 + b / 16 == y && b % 16 * 4 + c / 64 == z && c % 64 == w
  {
  }

  /** One group of four without padding, and the rest. */
  lemma GroupSpells(t: string, rest: string, pads: nat)
    requires |t| >= 4 && InAlphabet(t[0]) && InAlphabet(t[1]) && InAlphabet(t[2]) && InAlphabet(t[3])
    requires DecodeGroups(t[4..]) == Some(rest) && Spells(rest, t[4..], pads)
    ensures DecodeGroups(t).Some? && Spells(DecodeGroups(t).value, t, pads)
  {
    hide SextetValue, Sextet, InAlphabet, DecodeGroups, Base64Encode, Spells, FirstByte, SecondByte, ThirdByte;
    AlphabetMeans(t[0]);
    AlphabetMeans(t[1]);
    AlphabetMeans(t[2]);
    AlphabetMeans(t[3]);
    var x, y := SextetValue(t[0]).value, SextetValue(t[1]).value;
    var z, w := SextetValue(t[2]).value, SextetValue(t[3]).value;
    GroupDecoded(t, x, y, z, w, rest);
    EncodeGroup(x, y, z, w, rest);
    SpellsMore(t[..4], t[4..], [FirstByte(x, y), SecondByte(y, z), ThirdByte(z, w)], rest, pads);
    assert t == t[..4] + t[4..];
  }

  lemma GroupDecoded(t: string, x: int, y: int, z: int, w: int, rest: string)
    requires |t| >= 4 && t[2] != '=' && t[3] != '='
    requires SextetValue(t[0]) == Some(x) && SextetValue(t[1]) == Some(y)
    requires SextetValue(t[2]) == Some(z) && SextetValue(t[3]) == Some(w)
    requires DecodeGroups(t[4..]) == Some(rest)
    ensures DecodeGroups(t) == Some([FirstByte(x, y), SecondByte(y, z), ThirdByte(z, w)] + rest)
  {
    hide SextetValue, FirstByte, SecondByte, ThirdByte;
  }

  lemma EncodeGroup(x: int, y: int, z: int, w: int, rest: string)
    requires 0 <= x < 64 && 0 <= y < 64 && 0 <= z < 64 && 0 <= w < 64 && IsBytes(rest)
    ensures Base64Encode([FirstByte(x, y), SecondByte(y, z), ThirdByte(z, w)] + rest)
         == [Sextet(x), Sextet(y), Sextet(z), Sextet(w)] + Base64Encode(rest)
  {
    var a, b, c := FirstByte(x, y), SecondByte(y, z), ThirdByte(z, w);
    SextetsOfBytes(x, y, z, w);
    hide FirstByte, SecondByte, ThirdByte, Sextet;
    assert ([a, b, c] + rest)[3..] == rest;
  }

  lemma SpellsMore(head: string, tail: string, bytes: string, rest: string, pads: nat)
    requires |head| == 4 && |bytes| == 3 && IsBytes(bytes) && IsBytes(rest) && Spells(rest, tail, pads)
    requires Base64Encode(bytes + rest) == head + Base64Encode(rest)
    ensures Spells(bytes + rest, head + tail, pads)
  {
    hide Base64Encode;
  }

  /** The last group, with padding. */
  lemma TwoPads(t: string)
    requires |t| == 4 && InAlphabet(t[0]) && InAlphabet(t[1]) && t[2] == '=' && t[3] == '='
    ensures DecodeGroups(t).Some? && Spells(DecodeGroups(t).value, t, 2)
  {
    AlphabetMeans(t[0]);
    AlphabetMeans(t[1]);
    var x, y := SextetValue(t[0]).value, SextetValue(t[1]).value;
    SextetsOfBytes(x, y, 0, 0);
    hide SextetValue, Sextet, InAlphabet;
    assert DecodeGroups(t) == Some([FirstByte(x, y)]) by { hide FirstByte; }
    hide FirstByte, DecodeGroups;
  }

  lemma OnePad(t: string)
    requires |t| == 4 && InAlphabet(t[0]) && InAlphabet(t[1]) && InAlphabet(t[2]) && t[3] == '='
    ensures DecodeGroups(t).Some? && Spells(DecodeGroups(t).value, t, 1)
  {
    AlphabetMeans(t[0]);
    AlphabetMeans(t[1]);
    AlphabetMeans(t[2]);
    var x, y, z := SextetValue(t[0]).value, SextetValue(t[1]).value, SextetValue(t[2]).value;
    SextetsOfBytes(x, y, z, 0);
    hide SextetValue, Sextet, InAlphabet;
    assert DecodeGroups(t) == Some([FirstByte(x, y), SecondByte(y, z)]) by { hide FirstByte, SecondByte; }
    hide FirstByte, SecondByte, DecodeGroups;
  }

  lemma {:induction false} WellPaddedDecodes(t: string, pads: nat)
    requires WellPadded(t, pads)
    ensures DecodeGroups(t).Some? && Spells(DecodeGroups(t).value, t, pads)
  {
    hide InAlphabet, DecodeGroups, Spells;
    if t == [] {
      NothingSpells();
    } else if |t| == 4 && pads == 2 {
      TwoPads(t);
    } else if |t| == 4 && pads == 1 {
      OnePad(t);
    } else {
      assert forall i :: 4 <= i < |t| ==> t[4..][i - 4] == t[i];
      WellPaddedDecodes(t[4..], pads);
      GroupSpells(t, DecodeGroups(t[4..]).value, pads);
    }
  }

  lemma NothingSpells()
    ensures DecodeGroups([]).Some? && Spells(DecodeGroups([]).value, [], 0)
  {
  }

  /** How the decoder takes a non-empty string apart. */
  lemma DecodedGroup(t: string)
    requires DecodeGroups(t).Some? && t != []
    ensures |t| >= 4 && InAlphabet(t[0]) && InAlphabet(t[1])
    ensures || (|t| == 4 && t[2] == '=' && t[3] == '=') || (|t| == 4 && InAlphabet(t[2]) && t[3] == '=')
            || (InAlphabet(t[2]) && InAlphabet(t[3]) && DecodeGroups(t[4..]).Some?)
  {
    AlphabetMeans(t[0]);
    AlphabetMeans(t[1]);
    if |t| >= 4 {
      AlphabetMeans(t[2]);
      AlphabetMeans(t[3]);
    }
    hide SextetValue, InAlphabet, FirstByte, SecondByte, ThirdByte;
  }

  lemma {:induction false} DecodedWellPadded(t: string) returns (pads: nat)
    requires DecodeGroups(t).Some?
    ensures WellPadded(t, pads)
  {
    hide InAlphabet, DecodeGroups;
    if t == [] { return 0; }
    DecodedGroup(t);
    if t[3] == '=' && |t| == 4 {
      pads := if t[2] == '=' then 2 else 1;
    } else {
      pads := DecodedWellPadded(t[4..]);
      assert forall i :: 4 <= i < |t| ==> t[i] == t[4..][i - 4];
    }
  }

  /** A string is decoded exactly when, without its line breaks, it is well padded; and then it spells the bytes. */
  lemma DecodedExactly(s: string)
    ensures Base64Decode(s).Some? <==> exists pads :: WellPadded(StripLineBreaks(s), pads)
    ensures forall pads :: WellPadded(StripLineBreaks(s), pads) ==>
              Base64Decode(s).Some? && Spells(Base64Decode(s).value, StripLineBreaks(s), pads)
  {
    hide WellPadded, DecodeGroups, Spells;
    if Base64Decode(s).Some? {
      var pads := DecodedWellPadded(StripLineBreaks(s));
      assert WellPadded(StripLineBreaks(s), pads);
    }
    forall pads | WellPadded(StripLineBreaks(s), pads)
      ensures Base64Decode(s).Some? && Spells(Base64Decode(s).value, StripLineBreaks(s), pads)
    {
      WellPaddedDecodes(StripLineBreaks(s), pads);
    }
  }

  /** Exactly carriage returns and line feeds are dropped. */
  lemma {:induction false} StrippedParts(a: string, c: char, b: string)
    ensures StripLineBreaks(a + [c] + b)
         == StripLineBreaks(a) + (if c == 13 as char || c == 10 as char then [] else [c]) + StripLineBreaks(b)
  {
    var s := a + [c] + b;
    if a == [] {
      assert s[0] == c && s[1..] == b;
    } else {
      assert s[0] == a[0] && s[1..] == a[1..] + [c] + b;
      StrippedParts(a[1..], c, b);
    }
  }
}
