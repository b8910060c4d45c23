/** AX.25 addresses and UI frames (section 3.12 of AX.25 v2.2). */
module Ax25 {
  import opened Wrappers
  import opened Messages
  import opened Bits
  import opened Text

  /** A callsign's characters stand for its bytes. */
  datatype Address = Address(callsign: string, ssid: int)

  datatype AddressError = InvalidSsid | SsidOutOfRange | CallsignTooLong

  datatype UiFrame = UiFrame(
    destination: Address,
    source: Address,
    digipeaters: seq<Address>,
    control: byte,
    pid: byte,
    info: seq<byte>)

  const UI_CONTROL: byte := 0x03
  const NO_LAYER_3: byte := 0xF0

  // ---- addresses as text ----

  function ToUpperChar(c: char): char {
    if 'a' <= c <= 'z' then c - 'a' + 'A' else c
  }

  function ToUpper(s: string): string {
    seq(|s|, i requires 0 <= i < |s| => ToUpperChar(s[i]))
  }

  function NewAddress(callsign: string, ssid: int): Result<Address, AddressError> {
    var upper := ToUpper(callsign);
    if |upper| > 6 then Err(CallsignTooLong)
    else if ssid < 0 || ssid > 15 then Err(SsidOutOfRange)
    else Ok(Address(upper, ssid))
  }

  /** The position of the first occurrence, or the length. */
  function FirstIndex(s: string, c: char): (i: nat)
    ensures i <= |s| && c !in s[..i] && (i < |s| ==> s[i] == c)
  {
    if s == "" then 0
    else if s[0] == c then 0
    else
      var i := FirstIndex(s[1..], c);
      assert s[..i + 1] == [s[0]] + s[1..][..i];
      i + 1
  }

  function ParseAddress(s: string): Result<Address, AddressError> {
    var idx := FirstIndex(s, '-');
    if idx < |s| then
      var ssid := Atoi(s[idx + 1..]);
      if ssid.None? then Err(InvalidSsid)
      else if ssid.value < 0 || ssid.value > 15 then Err(SsidOutOfRange)
      else NewAddress(s[..idx], ssid.value)
    else NewAddress(s, 0)
  }

  function AddressString(a: Address): string {
    if a.ssid == 0 then a.callsign else a.callsign + "-" + Itoa(a.ssid)
  }

  predicate IsUpper(s: string) {
    forall i :: 0 <= i < |s| ==> !('a' <= s[i] <= 'z')
  }

  /** What the parser can return. */
  predicate Parsed(a: Address) {
    |a.callsign| <= 6 && 0 <= a.ssid <= 15 && '-' !in a.callsign && IsUpper(a.callsign)
  }

  lemma FirstIndexAt(before: string, c: char, after: string)
    requires c !in before
    ensures FirstIndex(before + [c] + after, c) == |before|
  {
    var s := before + [c] + after;
    var i := FirstIndex(s, c);
    forall j | 0 <= j < |before|
      ensures s[j] != c
    {
      assert s[j] == before[j] && before[j] in before;
    }
    forall j | 0 <= j < i
      ensures s[j] != c
    {
      assert s[..i][j] == s[j];
    }
    assert s[|before|] == c;
  }

  lemma HasFirstIndex(s: string, c: char)
    requires c in s
    ensures FirstIndex(s, c) < |s|
  {
    var i := FirstIndex(s, c);
    forall j | 0 <= j < i
      ensures s[j] != c
    {
      assert s[..i][j] == s[j];
    }
    var j :| 0 <= j < |s| && s[j] == c;
    assert i <= j;
  }

  lemma NoFirstIndex(s: string, c: char)
    requires c !in s
    ensures FirstIndex(s, c) == |s|
  {
    forall j | 0 <= j < |s|
      ensures s[j] != c
    {
      assert s[j] in s;
    }
  }

  lemma UpperKeepsDash(s: string)
    requires '-' !in s
    ensures '-' !in ToUpper(s)
  {
    forall i | 0 <= i < |s|
      ensures ToUpper(s)[i] != '-'
    {
      assert s[i] in s;
    }
  }

  lemma UpperIsUpper(s: string)
    ensures IsUpper(ToUpper(s))
    ensures ToUpper(s) == s <==> IsUpper(s)
  {
    if ToUpper(s) == s {
      assert forall i :: 0 <= i < |s| ==> ToUpperChar(s[i]) == s[i];
    }
  }

  lemma ParsesToParsed(s: string)
    ensures ParseAddress(s).Ok? ==> Parsed(ParseAddress(s).value)
  {
    var idx := FirstIndex(s, '-');
    assert idx == |s| ==> s[..idx] == s;
    UpperKeepsDash(s[..idx]);
    UpperIsUpper(s[..idx]);
  }

  lemma ParsesOwnString(a: Address)
    requires Parsed(a)
    ensures ParseAddress(AddressString(a)) == Ok(a)
  {
    UpperIsUpper(a.callsign);
    if a.ssid == 0 {
      NoFirstIndex(a.callsign, '-');
    } else {
      var s := a.callsign + "-" + Itoa(a.ssid);
      FirstIndexAt(a.callsign, '-', Itoa(a.ssid));
      assert s[..|a.callsign|] == a.callsign && s[|a.callsign| + 1..] == Itoa(a.ssid);
      ItoaRoundTrip(a.ssid);
    }
  }

  /** The text of an address parses back to it exactly when the address is one the parser can return. */
  lemma AddressTextIff(a: Address)
    ensures ParseAddress(AddressString(a)) == Ok(a) <==> Parsed(a)
  {
    ParsesToParsed(AddressString(a));
    if Parsed(a) {
      ParsesOwnString(a);
    }
  }

  /** The letters, one by one; everything else in ASCII stays. */
  lemma UpperLetters()
    ensures ToUpper("abcdefghijklmnopqrstuvwxyz") == "ABCDEFGHIJKLMNOPQRSTUVWXYZ"
    ensures ToUpper("W1ABC-/0189@[`{ ") == "W1ABC-/0189@[`{ "
  {
  }

  /** The constructor's own bounds, whoever calls it. */
  lemma NewAddressIff(callsign: string, ssid: int, a: Address)
    ensures NewAddress(callsign, ssid) == Ok(a) <==>
              |callsign| <= 6 && 0 <= ssid <= 15 && a == Address(ToUpper(callsign), ssid)
    ensures NewAddress(callsign, ssid) == Err(CallsignTooLong) <==> |callsign| > 6
  {
  }

  /** The three ways in which a text is refused, and what is read otherwise; without a dash the SSID is 0. */
  lemma ParseIs(before: string, rest: string)
    requires '-' !in before
    ensures ParseAddress(before) == if |before| <= 6 then Ok(Address(ToUpper(before), 0)) else Err(CallsignTooLong)
    ensures ParseAddress(before + "-" + rest)
         == var n := Atoi(rest);
            if n.None? then Err(InvalidSsid)
            else if n.value < 0 || n.value > 15 then Err(SsidOutOfRange)
            else if |before| > 6 then Err(CallsignTooLong)
            else Ok(Address(ToUpper(before), n.value))
  {
    NoFirstIndex(before, '-');
    var s := before + ['-'] + rest;
    FirstIndexAt(before, '-', rest);
    assert s[..|before|] == before && s[|before| + 1..] == rest;
  }

  /** Parsing settles an address: a second trip through its text changes nothing. */
  lemma ParseSettles(s: string)
    requires ParseAddress(s).Ok?
    ensures ParseAddress(AddressString(ParseAddress(s).value)) == ParseAddress(s)
  {
    ParsesToParsed(s);
    ParsesOwnString(ParseAddress(s).value);
  }

  // ---- addresses on the air ----

  function ByteOf(c: char): byte {
    LowByte(c as int)
  }

  function Padded(callsign: string): (r: string)
    ensures |r| >= 6
    decreases 6 - |callsign|
  {
    if |callsign| < 6 then Padded(callsign + " ") else callsign
  }

  function ShiftedChars(s: string): seq<byte> {
    seq(|s|, i requires 0 <= i < |s| => ShiftUp(ByteOf(s[i])))
  }

  function SsidBits(low: byte, isLast: bool): byte {
    (0x60 | ((low as bv8) << 1) | (if isLast then 1 else 0)) as byte
  }

  function SsidByte(ssid: int, isLast: bool): byte {
    SsidBits(LowByte(ssid), isLast)
  }

  function AddressBytes(a: Address, isLast: bool): (r: seq<byte>)
    ensures |r| == 7
  {
    ShiftedChars(Padded(a.callsign)[..6]) + [SsidByte(a.ssid, isLast)]
  }

  /** The characters of the shifted bytes, spaces left out. */
  function ReadChars(data: seq<byte>): string {
    if data == [] then ""
    else (if ShiftDown(data[0]) != ' ' as byte then [ShiftDown(data[0]) as char] else "") + ReadChars(data[1..])
  }

  function SsidOf(b: byte): byte {
    (((b as bv8) >> 1) & 0x0F) as byte
  }

  /** The extension bit: set in the last octet of the address field. */
  predicate IsExtension(b: byte) {
    (b as bv8) & 0x01 != 0
  }

  function ReadAddress(data: seq<byte>): Option<Address> {
    if |data| != 7 then None else Some(Address(ReadChars(data[..6]), SsidOf(data[6]) as int))
  }

  method EncodeAddress(a: Address, isLast: bool) returns (result: seq<byte>)
    ensures result == AddressBytes(a, isLast)
  {
    var padded := a.callsign;
    while |padded| < 6
      invariant Padded(padded) == Padded(a.callsign)
      decreases 6 - |padded|
    {
      padded := padded + " ";
    }
    var bytes := new byte[7];
    for i := 0 to 6
      invariant forall k :: 0 <= k < i ==> bytes[k] == ShiftUp(ByteOf(padded[k]))
    {
      bytes[i] := ShiftUp(ByteOf(padded[i]));
    }
    bytes[6] := SsidByte(a.ssid, isLast);
    assert bytes[..6] == ShiftedChars(padded[..6]);
    assert bytes[..] == bytes[..6] + [bytes[6]];
    return bytes[..];
  }

  lemma ReadCharsStep(data: seq<byte>, done: string, i: nat)
    requires i < |data|
    ensures var c := ShiftDown(data[i]);
            done + ReadChars(data[i..]) == done + (if c != ' ' as byte then [c as char] else "") + ReadChars(data[i + 1..])
  {
    assert data[i..][1..] == data[i + 1..];
  }

  method DecodeAddress(data: seq<byte>) returns (r: Option<Address>)
    ensures r == ReadAddress(data)
  {
    if |data| != 7 {
      return None;
    }
    var chars := "";
    assert chars + ReadChars(data[..6][0..]) == ReadChars(data[..6]) by {
      assert data[..6][0..] == data[..6];
    }
    for i := 0 to 6
      invariant chars + ReadChars(data[..6][i..]) == ReadChars(data[..6])
    {
      var c := ShiftDown(data[i]);
      ReadCharsStep(data[..6], chars, i);
      if c != ' ' as byte {
        chars := chars + [c as char];
      } else {
        assert chars + "" == chars;
      }
    }
    assert chars + "" == chars;
    return Some(Address(chars, SsidOf(data[6]) as int));
  }

  lemma BitsUnderMask(x: bv8, last: bv8)
    requires last <= 1
    ensures ((0x60 | (x << 1) | last) >> 1) & 0x0F == x & 0x0F
    ensures (0x60 | (x << 1) | last) & 0x01 == last
  {
  }

  lemma SsidBitsBack(low: byte, isLast: bool)
    ensures SsidOf(SsidBits(low, isLast)) == ((low as bv8) & 0x0F) as byte
    ensures IsExtension(SsidBits(low, isLast)) == isLast
  {
    var last: bv8 := if isLast then 1 else 0;
    ByteOfBits(0x60 | ((low as bv8) << 1) | last);
    BitsUnderMask(low as bv8, last);
  }

  lemma SsidBack(low: byte, isLast: bool)
    ensures SsidOf(SsidBits(low, isLast)) == low % 16
    ensures IsExtension(SsidBits(low, isLast)) == isLast
  {
    SsidBitsBack(low, isLast);
    LowFourBits(low as bv8);
    BitsOfByte(low);
  }

  lemma SsidByteBack(ssid: int, isLast: bool)
    ensures SsidOf(SsidByte(ssid, isLast)) as int == ssid % 16
    ensures IsExtension(SsidByte(ssid, isLast)) == isLast
  {
    SsidBack(LowByte(ssid), isLast);
    LowByteBits(ssid);
  }

  lemma SsidArithmetic(x: bv8, last: bv8)
    requires x < 16 && last <= 1
    ensures 0x60 | (x << 1) | last == 0x60 + x + x + last
    ensures (0x60 + x + x + last) as int == 0x60 + 2 * (x as int) + (last as int)
  {
  }

  lemma SsidByteIsFor(low: byte, isLast: bool)
    requires low < 16
    ensures SsidBits(low, isLast) as int == 96 + 2 * (low as int) + (if isLast then 1 else 0)
  {
    SmallBits(low);
    BitsOfByte(low);
    SsidArithmetic(low as bv8, if isLast then 1 else 0);
  }

  lemma DoubledBits(x: bv8)
    requires x < 128
    ensures (x << 1) as int == 2 * (x as int)
  {
  }

  lemma SevenBitIff(b: byte)
    ensures (b as bv8) < 128 <==> b < 128
  {
  }

  lemma ShiftUpDoubles(b: byte)
    requires b < 128
    ensures ShiftUp(b) as int == 2 * (b as int)
  {
    SevenBitIff(b);
    BitsOfByte(b);
    DoubledBits(b as bv8);
  }

  /**
    * The seven octets of an address in numbers (section 3.12.2 of AX.25 v2.2): six characters padded with spaces, each
    * doubled, then 96 plus twice the SSID, plus 1 in the last address.
    */
  lemma AddressOctets(a: Address, isLast: bool, i: nat)
    requires Canonical(a) && i < 7
    ensures AddressBytes(a, isLast)[i] as int
         == if i == 6 then 96 + 2 * a.ssid + (if isLast then 1 else 0)
            else 2 * (if i < |a.callsign| then a.callsign[i] as int else 32)
  {
    if i == 6 {
      LowByteIff(a.ssid);
      SsidByteIsFor(LowByte(a.ssid), isLast);
    } else {
      PaddedWithSpaces(a.callsign);
      var c := Padded(a.callsign)[i];
      assert c == Padded(a.callsign)[..6][i];
      LowByteIff(c as int);
      ShiftUpDoubles(ByteOf(c));
    }
  }

  /** What seven bits without spaces keep of a text. */
  function Visible(s: string): string {
    if s == "" then ""
    else
      var c := (s[0] as int % 128) as char;
      (if c != ' ' then [c] else "") + Visible(s[1..])
  }

  lemma CharShiftedBack(c: char)
    ensures ShiftDown(ShiftUp(ByteOf(c))) as int == c as int % 128
  {
    ShiftedBack(ByteOf(c));
    LowByteBits(c as int);
  }

  lemma {:induction false} CharsBack(s: string)
    ensures ReadChars(ShiftedChars(s)) == Visible(s)
  {
    if s != "" {
      CharsBack(s[1..]);
      CharShiftedBack(s[0]);
      assert ShiftedChars(s)[1..] == ShiftedChars(s[1..]);
    }
  }

  /** The address a receiver reads. */
  function OnAir(a: Address): Address {
    Address(Visible(Padded(a.callsign)[..6]), a.ssid % 16)
  }

  lemma AddressBack(a: Address, isLast: bool)
    ensures ReadAddress(AddressBytes(a, isLast)) == Some(OnAir(a))
    ensures IsExtension(AddressBytes(a, isLast)[6]) == isLast
  {
    var data := AddressBytes(a, isLast);
    assert data[..6] == ShiftedChars(Padded(a.callsign)[..6]);
    CharsBack(Padded(a.callsign)[..6]);
    SsidByteBack(a.ssid, isLast);
  }

  predicate IsPlain(s: string) {
    forall i :: 0 <= i < |s| ==> s[i] as int < 128 && s[i] != ' '
  }

  /** At most six seven-bit characters, none of them a space, and a four-bit SSID. */
  predicate Canonical(a: Address) {
    |a.callsign| <= 6 && IsPlain(a.callsign) && 0 <= a.ssid < 16
  }

  lemma {:induction false} VisibleIsPlain(s: string)
    ensures IsPlain(Visible(s)) && |Visible(s)| <= |s|
  {
    if s != "" {
      VisibleIsPlain(s[1..]);
    }
  }

  /** Padding is not visible. */
  lemma {:induction false} VisiblePadded(s: string, n: nat)
    requires IsPlain(s)
    ensures Visible(s + seq(n, _ => ' ')) == s
    decreases |s|, n
  {
    var t := s + seq(n, _ => ' ');
    if s != "" {
      VisiblePadded(s[1..], n);
      assert t[1..] == s[1..] + seq(n, _ => ' ');
      assert s == [s[0]] + s[1..];
    } else if n > 0 {
      VisiblePadded(s, n - 1);
      assert t[1..] == s + seq(n - 1, _ => ' ');
    }
  }

  lemma {:induction false} PaddedWithSpaces(s: string)
    requires |s| <= 6
    ensures Padded(s)[..6] == s + seq(6 - |s|, _ => ' ')
    decreases 6 - |s|
  {
    if |s| < 6 {
      PaddedWithSpaces(s + " ");
      assert s + " " + seq(5 - |s|, _ => ' ') == s + seq(6 - |s|, _ => ' ');
    } else {
      assert s[..6] == s;
    }
  }

  /** A receiver reads the address that was sent exactly when it is canonical. */
  lemma OnAirIff(a: Address)
    ensures OnAir(a) == a <==> Canonical(a)
  {
    VisibleIsPlain(Padded(a.callsign)[..6]);
    if Canonical(a) {
      PaddedWithSpaces(a.callsign);
      VisiblePadded(a.callsign, 6 - |a.callsign|);
    }
  }

  // ---- frames ----

  function DigipeaterBytes(ds: seq<Address>): seq<byte> {
    if ds == [] then [] else AddressBytes(ds[0], |ds| == 1) + DigipeaterBytes(ds[1..])
  }

  function FrameBytes(f: UiFrame): seq<byte> {
    AddressBytes(f.destination, false) + AddressBytes(f.source, f.digipeaters == []) + DigipeaterBytes(f.digipeaters)
    + ([f.control, f.pid] + f.info)
  }

  method EncodeFrame(f: UiFrame) returns (result: seq<byte>)
    ensures result == FrameBytes(f)
  {
    result := EncodeAddress(f.destination, false);
    var isLast := |f.digipeaters| == 0;
    var src := EncodeAddress(f.source, isLast);
    result := result + src;
    ghost var head := result;
    for i := 0 to |f.digipeaters|
      invariant result + DigipeaterBytes(f.digipeaters[i..]) == head + DigipeaterBytes(f.digipeaters)
    {
      isLast := i == |f.digipeaters| - 1;
      var digi := EncodeAddress(f.digipeaters[i], isLast);
      assert f.digipeaters[i..][1..] == f.digipeaters[i + 1..];
      assert result + (digi + DigipeaterBytes(f.digipeaters[i + 1..])) == result + digi + DigipeaterBytes(f.digipeaters[i + 1..]);
      result := result + digi;
    }
    assert result + [] == result;
    result := result + [f.control];
    result := result + [f.pid];
    result := result + f.info;
  }

  /** The digipeaters at the front of some bytes, and the bytes after them. */
  function ReadDigipeaters(data: seq<byte>): (seq<Address>, seq<byte>) {
    if |data| < 7 then ([], data)
    else
      var digi := ReadAddress(data[..7]).value;
      if IsExtension(data[6]) then ([digi], data[7..])
      else
        var (digis, rest) := ReadDigipeaters(data[7..]);
        ([digi] + digis, rest)
  }

  /** What follows the source address: no digipeaters if that was the last one. */
  function ReadAfterSource(isLast: bool, data: seq<byte>): (seq<Address>, seq<byte>) {
    if isLast then ([], data) else ReadDigipeaters(data)
  }

  function ReadFrame(data: seq<byte>): Option<UiFrame> {
    if |data| < 16 then None
    else
      var (digis, rest) := ReadAfterSource(IsExtension(data[13]), data[14..]);
      if |rest| < 2 then None
      else
        Some(UiFrame(ReadAddress(data[0..7]).value, ReadAddress(data[7..14]).value, digis, rest[0], rest[1], rest[2..]))
  }

  /** The rest of the reading put behind the digipeaters found so far. */
  function ReadOnto(done: seq<Address>, data: seq<byte>): (seq<Address>, seq<byte>) {
    var (digis, rest) := ReadDigipeaters(data);
    (done + digis, rest)
  }

  lemma ReadStep(data: seq<byte>, idx: nat, done: seq<Address>, digi: Address)
    requires idx + 7 <= |data| && ReadAddress(data[idx..idx + 7]) == Some(digi)
    ensures ReadOnto(done, data[idx..])
         == if IsExtension(data[idx + 6]) then (done + [digi], data[idx + 7..])
            else ReadOnto(done + [digi], data[idx + 7..])
  {
    var rest := data[idx..];
    assert rest[..7] == data[idx..idx + 7] && rest[7..] == data[idx + 7..] && rest[6] == data[idx + 6];
    var digis := ReadDigipeaters(data[idx + 7..]).0;
    assert done + ([digi] + digis) == done + [digi] + digis;
  }

  /** The loop over the digipeaters, from the octet after the source. */
  method DecodeDigipeaters(data: seq<byte>, from: nat) returns (digipeaters: seq<Address>, idx: nat)
    requires from <= |data|
    ensures idx <= |data| && ReadOnto([], data[from..]) == (digipeaters, data[idx..])
  {
    digipeaters := [];
    idx := from;
    while idx + 7 <= |data|
      invariant from <= idx <= |data|
      invariant ReadOnto([], data[from..]) == ReadOnto(digipeaters, data[idx..])
    {
      var digi := DecodeAddress(data[idx..idx + 7]);
      if digi.None? {
        break;
      }
      ReadStep(data, idx, digipeaters, digi.value);
      digipeaters := digipeaters + [digi.value];
      idx := idx + 7;
      if IsExtension(data[idx - 1]) {
        return;
      }
    }
    assert digipeaters + [] == digipeaters;
  }

  method DecodeFrame(data: seq<byte>) returns (r: Option<UiFrame>)
    ensures r == ReadFrame(data)
  {
    if |data| < 16 {
      return None;
    }
    var dest := DecodeAddress(data[0..7]);
    if dest.None? {
      return None;
    }
    var src := DecodeAddress(data[7..14]);
    if src.None? {
      return None;
    }
    var digipeaters: seq<Address> := [];
    var idx: nat := 14;
    if !IsExtension(data[13]) {
      digipeaters, idx := DecodeDigipeaters(data, 14);
      assert [] + ReadDigipeaters(data[14..]).0 == ReadDigipeaters(data[14..]).0;
    }
    if idx >= |data| {
      return None;
    }
    var control := data[idx];
    if idx + 1 >= |data| {
      return None;
    }
    var pid := data[idx + 1];
    assert data[idx..][2..] == data[idx + 2..];
    return Some(UiFrame(dest.value, src.value, digipeaters, control, pid, data[idx + 2..]));
  }

  function OnAirAll(ds: seq<Address>): seq<Address> {
    seq(|ds|, i requires 0 <= i < |ds| => OnAir(ds[i]))
  }

  lemma {:induction false} DigipeatersBack(ds: seq<Address>, rest: seq<byte>)
    requires ds != []
    ensures ReadDigipeaters(DigipeaterBytes(ds) + rest) == (OnAirAll(ds), rest)
  {
    var first := AddressBytes(ds[0], |ds| == 1);
    var tail := DigipeaterBytes(ds[1..]) + rest;
    var data := DigipeaterBytes(ds) + rest;
    assert data == first + tail;
    assert data[..7] == first && data[7..] == tail;
    AddressBack(ds[0], |ds| == 1);
    if |ds| == 1 {
      assert tail == rest;
      assert OnAirAll(ds) == [OnAir(ds[0])];
    } else {
      DigipeatersBack(ds[1..], rest);
      assert OnAirAll(ds) == [OnAir(ds[0])] + OnAirAll(ds[1..]);
    }
  }

  /** What a receiver reads of a frame. */
  function FrameOnAir(f: UiFrame): UiFrame {
    f.(destination := OnAir(f.destination), source := OnAir(f.source), digipeaters := OnAirAll(f.digipeaters))
  }

  lemma FieldsOf(dest: seq<byte>, src: seq<byte>, tail: seq<byte>)
    requires |dest| == |src| == 7
    ensures var data := dest + src + tail;
            data[0..7] == dest && data[7..14] == src && data[13] == src[6] && data[14..] == tail
  {
  }

  lemma AfterSourceBack(ds: seq<Address>, rest: seq<byte>)
    ensures ReadAfterSource(ds == [], DigipeaterBytes(ds) + rest) == (OnAirAll(ds), rest)
  {
    if ds == [] {
      assert DigipeaterBytes(ds) + rest == rest;
      assert OnAirAll(ds) == [];
    } else {
      DigipeatersBack(ds, rest);
    }
  }

  /** Any frame, with any number of digipeaters, is read back up to what its address octets can carry. */
  lemma FrameBack(f: UiFrame)
    ensures ReadFrame(FrameBytes(f)) == Some(FrameOnAir(f))
  {
    var rest := [f.control, f.pid] + f.info;
    var dest, src := AddressBytes(f.destination, false), AddressBytes(f.source, f.digipeaters == []);
    var tail := DigipeaterBytes(f.digipeaters) + rest;
    assert FrameBytes(f) == dest + src + tail;
    FieldsOf(dest, src, tail);
    AddressBack(f.destination, false);
    AddressBack(f.source, f.digipeaters == []);
    AfterSourceBack(f.digipeaters, rest);
    assert rest[2..] == f.info;
  }

  /** The frame itself comes back exactly when every one of its addresses is canonical. */
  lemma FrameBackIff(f: UiFrame)
    ensures ReadFrame(FrameBytes(f)) == Some(f)
       <==> Canonical(f.destination) && Canonical(f.source) && forall d :: d in f.digipeaters ==> Canonical(d)
  {
    FrameBack(f);
    OnAirIff(f.destination);
    OnAirIff(f.source);
    forall i | 0 <= i < |f.digipeaters|
      ensures OnAirAll(f.digipeaters)[i] == f.digipeaters[i] <==> Canonical(f.digipeaters[i])
    {
      OnAirIff(f.digipeaters[i]);
    }
    if forall d :: d in f.digipeaters ==> Canonical(d) {
      assert forall i :: 0 <= i < |f.digipeaters| ==> f.digipeaters[i] in f.digipeaters;
      assert OnAirAll(f.digipeaters) == f.digipeaters;
    }
  }

  /** Digipeater j is what its seven octets say, and all of them but the last have a clear extension bit. */
  ghost predicate DigipeaterAt(data: seq<byte>, digis: seq<Address>, j: nat)
    requires 7 * |digis| <= |data| && j < |digis|
  {
    && ReadAddress(data[7 * j..7 * j + 7]) == Some(digis[j])
    && (j < |digis| - 1 ==> !IsExtension(data[7 * j + 6]))
  }

  lemma DigipeaterLater(data: seq<byte>, digis: seq<Address>, j: nat)
    requires 7 * |digis| <= |data| && 0 < j < |digis|
    requires DigipeaterAt(data[7..], digis[1..], j - 1)
    ensures DigipeaterAt(data, digis, j)
  {
    assert data[7..][7 * (j - 1)..7 * (j - 1) + 7] == data[7 * j..7 * j + 7];
  }

  /** The address field ends at the first octet group whose extension bit is set, or where too few octets are left. */
  lemma {:induction false} DigipeatersEndAtExtension(data: seq<byte>)
    ensures var (digis, rest) := ReadDigipeaters(data);
            && 7 * |digis| <= |data| && rest == data[7 * |digis|..]
            && (forall j :: 0 <= j < |digis| ==> DigipeaterAt(data, digis, j))
            && (|rest| < 7 || (digis != [] && IsExtension(data[7 * |digis| - 1])))
  {
    if |data| >= 7 && !IsExtension(data[6]) {
      DigipeatersEndAtExtension(data[7..]);
      var digis := ReadDigipeaters(data).0;
      assert digis[1..] == ReadDigipeaters(data[7..]).0;
      forall j | 0 <= j < |digis|
        ensures DigipeaterAt(data, digis, j)
      {
        if j > 0 {
          DigipeaterLater(data, digis, j);
        }
      }
    }
  }

  lemma DigipeaterBytesSize(ds: seq<Address>)
    ensures |DigipeaterBytes(ds)| == 7 * |ds|
  {
  }

  /** The order of the fields: destination, source, digipeaters, control, PID, payload. */
  lemma FrameLayout(f: UiFrame)
    ensures var data := FrameBytes(f);
            var at := 14 + 7 * |f.digipeaters|;
            && |data| == at + 2 + |f.info|
            && data[0..7] == AddressBytes(f.destination, false)
            && data[7..14] == AddressBytes(f.source, f.digipeaters == [])
            && data[at] == f.control && data[at + 1] == f.pid && data[at + 2..] == f.info
  {
    DigipeaterBytesSize(f.digipeaters);
    var data, at := FrameBytes(f), 14 + 7 * |f.digipeaters|;
    var head := AddressBytes(f.destination, false) + AddressBytes(f.source, f.digipeaters == [])
                + DigipeaterBytes(f.digipeaters);
    assert |head| == at && data == head + ([f.control, f.pid] + f.info);
    assert data[..at] == head;
  }

  /** Which octets are a frame: sixteen at least, and a control and a PID octet behind the address field. */
  lemma ReadsIff(data: seq<byte>)
    ensures ReadFrame(data).Some? <==>
              && |data| >= 16
              && var digis := if IsExtension(data[13]) then 0 else |ReadDigipeaters(data[14..]).0|;
              |data| >= 16 + 7 * digis
  {
    if |data| >= 16 {
      DigipeatersEndAtExtension(data[14..]);
    }
  }

  function CreateUiFrame(source: string, destination: string, info: seq<byte>): Result<UiFrame, AddressError> {
    var src := ParseAddress(source);
    if src.Err? then Err(src.error)
    else
      var dst := ParseAddress(destination);
      if dst.Err? then Err(dst.error)
      else Ok(UiFrame(dst.value, src.value, [], UI_CONTROL, NO_LAYER_3, info))
  }
}
