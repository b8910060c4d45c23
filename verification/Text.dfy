/** The text conversions behind the queue rows: hex, decimal numbers, and comma-separated lists. */
module Text {
  import opened Wrappers
  import opened Messages

  // ---- hex ----

  function HexDigit(v: byte): char
    requires v < 16
  {
    "0123456789abcdef"[v]
  }

  function HexValue(c: char): Option<byte> {
    if '0' <= c <= '9' then Some((c - '0') as byte)
    else if 'a' <= c <= 'f' then Some((c - 'a') as byte + 10)
    else if 'A' <= c <= 'F' then Some((c - 'A') as byte + 10)
    else None
  }

  function HexEncode(bytes: seq<byte>): string {
    if bytes == [] then "" else [HexDigit(bytes[0] / 16), HexDigit(bytes[0] % 16)] + HexEncode(bytes[1..])
  }

  function HexDecode(s: string): Option<seq<byte>> {
    if s == "" then Some([])
    else if |s| == 1 || HexValue(s[0]).None? || HexValue(s[1]).None? then None
    else
      var rest := HexDecode(s[2..]);
      if rest.None? then None else Some([HexValue(s[0]).value * 16 + HexValue(s[1]).value] + rest.value)
  }

  lemma HexDigitValue(v: byte)
    requires v < 16
    ensures HexValue(HexDigit(v)) == Some(v)
  {
  }

  /** Capitals are read too. */
  lemma HexValueIs(c: char, v: byte)
    requires v < 16
    ensures HexValue(c) == Some(v) <==> c == "0123456789abcdef"[v] || c == "0123456789ABCDEF"[v]
  {
  }

  lemma HexCharacters(c: char)
    ensures HexValue(c).Some? <==> c in "0123456789abcdefABCDEF"
    ensures HexValue(c).Some? ==> HexValue(c).value < 16
  {
    var letters := "0123456789abcdefABCDEF";
    if HexValue(c).Some? {
      var v := HexValue(c).value;
      HexValueIs(c, v);
      assert letters[v] == "0123456789abcdef"[v];
      if v >= 10 {
        assert letters[v + 6] == "0123456789ABCDEF"[v];
      }
    }
  }

  /** Exactly texts of an even number of hex digits are read. */
  lemma {:induction false} HexDecodeIff(s: string)
    ensures HexDecode(s).Some? <==> |s| % 2 == 0 && forall c :: c in s ==> c in "0123456789abcdefABCDEF"
  {
    if |s| >= 2 {
      HexCharacters(s[0]);
      HexCharacters(s[1]);
      HexDecodeIff(s[2..]);
      assert s == [s[0], s[1]] + s[2..];
    }
  }

  lemma NibblesJoin(b: byte)
    ensures b / 16 < 16 && (b / 16) * 16 + b % 16 == b
  {
  }

  /** Two hex digits of a byte put in front of any text read as that byte. */
  lemma HexPair(b: byte, rest: string)
    ensures HexDecode([HexDigit(b / 16), HexDigit(b % 16)] + rest)
         == if HexDecode(rest).None? then None else Some([b] + HexDecode(rest).value)
  {
    NibblesJoin(b);
    HexDigitValue(b / 16);
    HexDigitValue(b % 16);
    var s := [HexDigit(b / 16), HexDigit(b % 16)] + rest;
    assert s[2..] == rest;
  }

  lemma {:induction false} HexRoundTrip(bytes: seq<byte>)
    ensures HexDecode(HexEncode(bytes)) == Some(bytes)
    ensures |HexEncode(bytes)| == 2 * |bytes|
  {
    if bytes != [] {
      HexRoundTrip(bytes[1..]);
      HexPair(bytes[0], HexEncode(bytes[1..]));
      assert [bytes[0]] + bytes[1..] == bytes;
    }
  }

  // ---- decimal numbers ----

  const MAX_INT := 0x7FFF_FFFF_FFFF_FFFF

  predicate IsInt(n: int) {
    -MAX_INT - 1 <= n <= MAX_INT
  }

  predicate IsDigit(c: char) {
    '0' <= c <= '9'
  }

  function Digits(n: nat): string {
    if n < 10 then ['0' + n as char] else Digits(n / 10) + ['0' + (n % 10) as char]
  }

  function Itoa(n: int): string {
    if n < 0 then "-" + Digits(-n) else Digits(n)
  }

  function DigitsValue(s: string): Option<nat> {
    if s == "" then Some(0)
    else
      var front := DigitsValue(s[..|s| - 1]);
      var c := s[|s| - 1];
      if front.None? || !IsDigit(c) then None else Some(front.value * 10 + (c - '0') as int)
  }

  /** An optional sign, at least one digit, and nothing else; out of the 64-bit range is an error. */
  function Atoi(s: string): Option<int> {
    var signed := s != "" && (s[0] == '-' || s[0] == '+');
    var body := if signed then s[1..] else s;
    var v := DigitsValue(body);
    if body == "" || v.None? then None
    else
      var n: int := if signed && s[0] == '-' then 0 - v.value else v.value;
      if IsInt(n) then Some(n) else None
  }

  lemma DigitChar(d: int)
    requires 0 <= d < 10
    ensures IsDigit('0' + d as char) && (('0' + d as char) - '0') as int == d
  {
  }

  ghost predicate AllDigits(s: string) {
    forall i :: 0 <= i < |s| ==> IsDigit(s[i])
  }

  lemma {:induction false} DigitsRoundTrip(n: nat)
    ensures DigitsValue(Digits(n)) == Some(n)
    ensures Digits(n) != "" && AllDigits(Digits(n))
  {
    DigitChar(n % 10);
    var s := Digits(n);
    if n >= 10 {
      DigitsRoundTrip(n / 10);
      assert s[..|s| - 1] == Digits(n / 10);
    } else {
      assert s[..0] == "";
    }
  }

  lemma AtoiOf(n: int, digits: string)
    requires IsInt(n) && digits != "" && AllDigits(digits)
    requires DigitsValue(digits) == Some(if n < 0 then -n else n)
    ensures Atoi(if n < 0 then "-" + digits else digits) == Some(n)
  {
    assert IsDigit(digits[0]);
    if n < 0 {
      assert ("-" + digits)[1..] == digits;
    }
  }

  /** A sign, if any, decides the sign only; a sign alone is no number. The range is that of a 64-bit int. */
  lemma AtoiSigns(digits: string, n: int)
    requires digits == "" || IsDigit(digits[0])
    ensures Atoi("+" + digits) == Atoi(digits)
    ensures Atoi(digits) == Some(n) <==>
              digits != "" && 0 <= n < 0x8000_0000_0000_0000 && DigitsValue(digits) == Some(n)
    ensures Atoi("-" + digits) == Some(n) <==>
              digits != "" && -0x8000_0000_0000_0000 <= n <= 0 && DigitsValue(digits) == Some(-n)
  {
    var plus, minus := "+" + digits, "-" + digits;
    assert plus[0] == '+' && plus[1..] == digits;
    assert minus[0] == '-' && minus[1..] == digits;
  }

  lemma {:induction false} NonDigitIsNoNumber(s: string, i: nat)
    requires i < |s| && !IsDigit(s[i])
    ensures DigitsValue(s).None?
  {
    if i < |s| - 1 {
      NonDigitIsNoNumber(s[..|s| - 1], i);
    }
  }

  /** Behind the first character only digits are accepted. */
  lemma AtoiNeedsDigits(s: string, i: nat)
    requires 1 <= i < |s| && !IsDigit(s[i])
    ensures Atoi(s).None?
  {
    NonDigitIsNoNumber(s, i);
    NonDigitIsNoNumber(s[1..], i - 1);
  }

  lemma ItoaRoundTrip(n: int)
    requires IsInt(n)
    ensures Atoi(Itoa(n)) == Some(n)
    ensures ':' !in Itoa(n) && ',' !in Itoa(n)
  {
    var digits := Digits(if n < 0 then -n else n);
    DigitsRoundTrip(if n < 0 then -n else n);
    AtoiOf(n, digits);
  }

  // ---- lists ----

  function Join(entries: seq<string>, sep: char): string {
    if entries == [] then ""
    else if |entries| == 1 then entries[0]
    else entries[0] + [sep] + Join(entries[1..], sep)
  }

  function Split(s: string, sep: char): (r: seq<string>)
    ensures r != []
  {
    if s == "" then [""]
    else
      var rest := Split(s[1..], sep);
      if s[0] == sep then [""] + rest else [[s[0]] + rest[0]] + rest[1..]
  }

  lemma {:induction false} SplitAt(first: string, rest: string, sep: char)
    requires sep !in first
    ensures Split(first, sep) == [first]
    ensures Split(first + [sep] + rest, sep) == [first] + Split(rest, sep)
  {
    if first == "" {
      assert (first + [sep] + rest)[1..] == rest;
    } else {
      SplitAt(first[1..], rest, sep);
      assert (first + [sep] + rest)[1..] == first[1..] + [sep] + rest;
      assert [first[0]] + first[1..] == first;
    }
  }

  lemma {:induction false} SplitJoin(entries: seq<string>, sep: char)
    requires entries != [] && forall e :: e in entries ==> sep !in e
    ensures Split(Join(entries, sep), sep) == entries
  {
    assert entries[0] in entries;
    if |entries| == 1 {
      SplitAt(entries[0], "", sep);
    } else {
      assert forall e :: e in entries[1..] ==> e in entries;
      SplitAt(entries[0], Join(entries[1..], sep), sep);
      SplitJoin(entries[1..], sep);
    }
  }

  lemma {:induction false} SplitPieces(s: string, sep: char)
    ensures forall e :: e in Split(s, sep) ==> sep !in e
  {
    if s != "" {
      SplitPieces(s[1..], sep);
      var rest := Split(s[1..], sep);
      assert rest[0] in rest;
      assert forall e :: e in rest[1..] ==> e in rest;
    }
  }

  /** The position of the last occurrence, or -1. */
  function LastIndex(s: string, c: char): int {
    if s == "" then -1 else if s[|s| - 1] == c then |s| - 1 else LastIndex(s[..|s| - 1], c)
  }

  lemma {:induction false} LastIndexAt(before: string, c: char, after: string)
    requires c !in after
    ensures LastIndex(before + [c] + after, c) == |before|
  {
    var s := before + [c] + after;
    if after != "" {
      assert s[..|s| - 1] == before + [c] + after[..|after| - 1];
      LastIndexAt(before, c, after[..|after| - 1]);
    }
  }

  lemma {:induction false} LastIndexRange(s: string, c: char)
    ensures -1 <= LastIndex(s, c) < |s|
    ensures LastIndex(s, c) >= 0 <==> c in s
  {
    if s != "" {
      LastIndexRange(s[..|s| - 1], c);
      assert s == s[..|s| - 1] + [s[|s| - 1]];
    }
  }

  /** Two lower-case digits a byte, high nibble first. */
  lemma HexExample()
    ensures HexEncode([0x0F, 0xA0]) == "0fa0"
  {
    var two: seq<byte> := [0x0F, 0xA0];
    assert two[1..] == [0xA0] && two[1..][1..] == [];
  }

  lemma ItoaExample()
    ensures Itoa(-120) == "-120"
  {
    assert Digits(1) == "1";
    assert Digits(12) == "12";
    assert Digits(120) == "120";
  }
}
