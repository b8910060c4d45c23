/** KISS framing (sections 2 and 3 of "The KISS TNC", Chepponis and Karn): escaping, and the incremental decoder. */
module Kiss {
  import opened Wrappers
  import opened Messages
  import opened Bits

  const FEND: byte := 0xC0
  const FESC: byte := 0xDB
  const TFEND: byte := 0xDC
  const TFESC: byte := 0xDD

  const DATA_FRAME: byte := 0x00

  predicate IsValidCommand(c: byte) {
    c <= 6 || c == 0x0F
  }

  datatype KissFrame = KissFrame(port: int, command: byte, data: seq<byte>)

  function EscapeByte(b: byte): seq<byte> {
    if b == FEND then [FESC, TFEND] else if b == FESC then [FESC, TFESC] else [b]
  }

  function Escape(content: seq<byte>): seq<byte> {
    if content == [] then [] else EscapeByte(content[0]) + Escape(content[1..])
  }

  function Unescape(data: seq<byte>): Option<seq<byte>> {
    if data == [] then Some([])
    else if data[0] != FESC then
      var rest := Unescape(data[1..]);
      if rest.None? then None else Some([data[0]] + rest.value)
    else if |data| == 1 || (data[1] != TFEND && data[1] != TFESC) then None
    else
      var rest := Unescape(data[2..]);
      if rest.None? then None else Some([if data[1] == TFEND then FEND else FESC] + rest.value)
  }

  // ---- the command byte ----

  function JoinNibbles(high: byte, low: byte): byte {
    (((high as bv8) << 4) | (low as bv8)) as byte
  }

  /** byte(port << 4) | byte(command): shifting first or converting first leaves the same eight bits. */
  function CommandByte(port: int, command: byte): byte {
    JoinNibbles(LowByte(port), command)
  }

  /** (b >> 4) & 0x0F */
  function HighNibble(b: byte): byte {
    (((b as bv8) >> 4) & 0x0F) as byte
  }

  /** b & 0x0F */
  function LowNibble(b: byte): byte {
    ((b as bv8) & 0x0F) as byte
  }

  lemma NibblesOfBits(high: bv8, low: bv8)
    ensures var c := (high << 4) | low;
            ((c >> 4) & 0x0F == high && c & 0x0F == low) <==> (high < 16 && low < 16)
  {
  }

  lemma HighNibbleBits(high: byte, low: byte)
    ensures var c := ((high as bv8) << 4) | (low as bv8);
            HighNibble(JoinNibbles(high, low)) == high <==> (c >> 4) & 0x0F == high as bv8
  {
    var c := ((high as bv8) << 4) | (low as bv8);
    ByteOfBits(c);
    SameBits((c >> 4) & 0x0F, high);
  }

  lemma LowNibbleBits(high: byte, low: byte)
    ensures var c := ((high as bv8) << 4) | (low as bv8);
            LowNibble(JoinNibbles(high, low)) == low <==> c & 0x0F == low as bv8
  {
    var c := ((high as bv8) << 4) | (low as bv8);
    ByteOfBits(c);
    SameBits(c & 0x0F, low);
  }

  lemma JoinedNibbles(high: byte, low: byte)
    ensures HighNibble(JoinNibbles(high, low)) == high && LowNibble(JoinNibbles(high, low)) == low
       <==> high < 16 && low < 16
  {
    HighNibbleBits(high, low);
    LowNibbleBits(high, low);
    SmallBits(high);
    SmallBits(low);
    NibblesOfBits(high as bv8, low as bv8);
  }

  /** Port and command come back out of the command byte exactly when both fit in four bits. */
  lemma NibblesOfCommand(port: int, command: byte)
    ensures HighNibble(CommandByte(port, command)) as int == port && LowNibble(CommandByte(port, command)) == command
       <==> 0 <= port < 16 && command < 16
  {
    LowByteIff(port);
    JoinedNibbles(LowByte(port), command);
  }

  lemma NibbleArithmetic(x: bv8)
    ensures ((x >> 4) & 0x0F) as int == (x as int) / 16 && (x & 0x0F) as int == (x as int) % 16
  {
  }

  /** The nibbles in numbers. */
  lemma NibblesAre(b: byte)
    ensures HighNibble(b) == b / 16 && LowNibble(b) == b % 16
  {
    BitsOfByte(b);
    NibbleArithmetic(b as bv8);
  }

  /** Exactly the commands 0 to 6 and 15 are known. */
  lemma KnownCommands(c: byte)
    ensures IsValidCommand(c) <==> c in [0, 1, 2, 3, 4, 5, 6, 15]
  {
  }

  function Content(f: KissFrame): seq<byte> {
    [CommandByte(f.port, f.command)] + f.data
  }

  function Encoded(f: KissFrame): seq<byte> {
    [FEND] + Escape(Content(f)) + [FEND]
  }

  function FromContent(content: seq<byte>): Option<KissFrame> {
    if content == [] || !IsValidCommand(LowNibble(content[0])) then None
    else Some(KissFrame(HighNibble(content[0]) as int, LowNibble(content[0]), content[1..]))
  }

  function DecodeInner(data: seq<byte>): Option<KissFrame> {
    var content := Unescape(data);
    if data == [] || content.None? then None else FromContent(content.value)
  }

  /** One FEND is stripped from either end. */
  function StripFends(data: seq<byte>): seq<byte> {
    var d := if data != [] && data[0] == FEND then data[1..] else data;
    if d != [] && d[|d| - 1] == FEND then d[..|d| - 1] else d
  }

  function Decoded(data: seq<byte>): Option<KissFrame> {
    DecodeInner(StripFends(data))
  }

  // ---- the two conversions, step by step ----

  lemma EscapeStep(done: seq<byte>, content: seq<byte>, i: nat)
    requires i < |content|
    ensures done + Escape(content[i..]) == done + EscapeByte(content[i]) + Escape(content[i + 1..])
  {
    assert content[i..][0] == content[i] && content[i..][1..] == content[i + 1..];
  }

  method EncodeFrame(f: KissFrame) returns (result: seq<byte>)
    ensures result == Encoded(f)
  {
    var cmdByte := CommandByte(f.port, f.command);
    var content := [cmdByte] + f.data;
    var escaped := [];
    for i := 0 to |content|
      invariant escaped + Escape(content[i..]) == Escape(content)
    {
      var b := content[i];
      EscapeStep(escaped, content, i);
      if b == FEND {
        escaped := escaped + [FESC, TFEND];
      } else if b == FESC {
        escaped := escaped + [FESC, TFESC];
      } else {
        escaped := escaped + [b];
      }
    }
    assert escaped + [] == escaped;
    result := [FEND] + escaped + [FEND];
  }

  /** The value of the rest of the data put behind what is already unescaped. */
  function Onto(done: seq<byte>, rest: Option<seq<byte>>): Option<seq<byte>> {
    if rest.None? then None else Some(done + rest.value)
  }

  lemma OntoStep(done: seq<byte>, x: byte, rest: Option<seq<byte>>)
    ensures Onto(done + [x], rest) == Onto(done, Onto([x], rest))
  {
    if rest.Some? {
      assert done + [x] + rest.value == done + ([x] + rest.value);
    }
  }

  lemma OntoNothing(rest: Option<seq<byte>>)
    ensures Onto([], rest) == rest
  {
    if rest.Some? {
      assert [] + rest.value == rest.value;
    }
  }

  /** One turn of the unescape loop, read off the recursive definition. */
  lemma UnescapeStep(data: seq<byte>, i: nat)
    requires i < |data|
    ensures data[i] != FESC ==> Unescape(data[i..]) == Onto([data[i]], Unescape(data[i + 1..]))
    ensures data[i] == FESC && (i + 1 == |data| || data[i + 1] !in [TFEND, TFESC]) ==> Unescape(data[i..]).None?
    ensures data[i] == FESC && i + 1 < |data| && data[i + 1] == TFEND ==>
              Unescape(data[i..]) == Onto([FEND], Unescape(data[i + 2..]))
    ensures data[i] == FESC && i + 1 < |data| && data[i + 1] == TFESC ==>
              Unescape(data[i..]) == Onto([FESC], Unescape(data[i + 2..]))
  {
    var rest := data[i..];
    assert rest[1..] == data[i + 1..];
    assert i + 1 < |data| ==> rest[1] == data[i + 1] && rest[2..] == data[i + 2..];
  }

  method DecodeKissFrame(input: seq<byte>) returns (frame: Option<KissFrame>)
    ensures frame == Decoded(input)
  {
    var data := input;
    if |data| == 0 {
      return None;
    }
    if data[0] == FEND {
      data := data[1..];
    }
    if |data| > 0 && data[|data| - 1] == FEND {
      data := data[..|data| - 1];
    }
    if |data| == 0 {
      return None;
    }
    assert data == StripFends(input);
    var unescaped := [];
    var i := 0;
    assert data[0..] == data;
    OntoNothing(Unescape(data));
    while i < |data|
      invariant 0 <= i <= |data|
      invariant Onto(unescaped, Unescape(data[i..])) == Unescape(data)
    {
      UnescapeStep(data, i);
      if data[i] == FESC {
        if i + 1 >= |data| {
          return None;
        }
        if data[i + 1] == TFEND {
          OntoStep(unescaped, FEND, Unescape(data[i + 2..]));
          unescaped := unescaped + [FEND];
          i := i + 2;
        } else if data[i + 1] == TFESC {
          OntoStep(unescaped, FESC, Unescape(data[i + 2..]));
          unescaped := unescaped + [FESC];
          i := i + 2;
        } else {
          return None;
        }
      } else {
        OntoStep(unescaped, data[i], Unescape(data[i + 1..]));
        unescaped := unescaped + [data[i]];
        i := i + 1;
      }
    }
    assert Unescape(data) == Some(unescaped) by {
      assert unescaped + [] == unescaped;
    }
    if |unescaped| == 0 {
      return None;
    }
    var cmdByte := unescaped[0];
    var port := HighNibble(cmdByte) as int;
    var cmd := LowNibble(cmdByte);
    if !IsValidCommand(cmd) {
      return None;
    }
    return Some(KissFrame(port, cmd, unescaped[1..]));
  }

  // ---- escaping is a bijection ----

  lemma {:induction false} EscapeHasNoFend(content: seq<byte>)
    ensures FEND !in Escape(content)
  {
    if content != [] {
      EscapeHasNoFend(content[1..]);
    }
  }

  lemma {:induction false} UnescapeEscape(content: seq<byte>)
    ensures Unescape(Escape(content)) == Some(content)
  {
    if content != [] {
      UnescapeEscape(content[1..]);
      var e := Escape(content);
      var rest := Escape(content[1..]);
      assert content == [content[0]] + content[1..];
      if content[0] == FEND || content[0] == FESC {
        assert e[2..] == rest;
      } else {
        assert e[1..] == rest;
      }
    }
  }

  lemma {:induction false} EscapeUnescape(data: seq<byte>)
    requires FEND !in data && Unescape(data).Some?
    ensures Escape(Unescape(data).value) == data
  {
    if data != [] {
      if data[0] != FESC {
        EscapeUnescape(data[1..]);
        assert data == [data[0]] + data[1..];
      } else {
        EscapeUnescape(data[2..]);
        assert data == [data[0], data[1]] + data[2..];
      }
    }
  }

  /** Between delimiters there is exactly one way to write a content, and exactly one way to read it. */
  lemma EscapeIff(data: seq<byte>, content: seq<byte>)
    requires FEND !in data
    ensures Unescape(data) == Some(content) <==> data == Escape(content)
  {
    UnescapeEscape(content);
    if Unescape(data).Some? {
      EscapeUnescape(data);
    }
  }

  lemma StripEncoded(f: KissFrame)
    ensures StripFends(Encoded(f)) == Escape(Content(f)) != []
  {
    var e := Escape(Content(f));
    EscapeHasNoFend(Content(f));
    var d := Encoded(f)[1..];
    assert d == e + [FEND];
    assert d[..|d| - 1] == e;
  }

  /** A frame reads back exactly when its port is one of sixteen and its command is a valid one. */
  lemma FrameRoundTripIff(f: KissFrame)
    ensures Decoded(Encoded(f)) == Some(f) <==> 0 <= f.port < 16 && IsValidCommand(f.command)
  {
    StripEncoded(f);
    UnescapeEscape(Content(f));
    NibblesOfCommand(f.port, f.command);
    assert Content(f)[1..] == f.data;
  }

  /** The delimited content of such a frame decodes to it. */
  lemma InnerBack(f: KissFrame)
    requires 0 <= f.port < 16 && IsValidCommand(f.command)
    ensures DecodeInner(Escape(Content(f))) == Some(f)
  {
    StripEncoded(f);
    FrameRoundTripIff(f);
  }

  /** The bytes themselves (section 2 of "The KISS TNC"): 0xC0 delimits, 0xDB 0xDC stands for it, 0xDB 0xDD for 0xDB. */
  lemma EscapesAre(b: byte)
    ensures Escape([b]) == if b == 0xC0 then [0xDB, 0xDC] else if b == 0xDB then [0xDB, 0xDD] else [b]
    ensures Encoded(KissFrame(0, 0, [])) == [0xC0, 0x00, 0xC0]
  {
    assert [b][1..] == [];
    NibblesOfCommand(0, 0);
    NibblesAre(CommandByte(0, 0));
    assert CommandByte(0, 0) == 0;
    assert Content(KissFrame(0, 0, [])) == [0];
    var zero: seq<byte> := [0];
    assert zero[1..] == [];
    assert Escape([0]) == [0];
  }

  // ---- the stream ----

  /** Between frames, or inside one with the bytes since its opening FEND. */
  datatype Phase = Outside | Inside(content: seq<byte>)

  /** The phase after a byte stream, and the contents between its paired FENDs. */
  datatype Scanned = Scanned(phase: Phase, contents: seq<seq<byte>>)

  /** The reference reader: one byte at a time, no buffer. */
  function Scan(p: Phase, s: seq<byte>): Scanned
    decreases |s|
  {
    if s == [] then Scanned(p, [])
    else if s[0] != FEND then
      Scan(if p.Inside? then Inside(p.content + [s[0]]) else Outside, s[1..])
    else if p.Outside? then Scan(Inside([]), s[1..])
    else
      var rest := Scan(Outside, s[1..]);
      Scanned(rest.phase, [p.content] + rest.contents)
  }

  function DataFrame(content: seq<byte>): seq<KissFrame> {
    var f := DecodeInner(content);
    if f.Some? && f.value.command == DATA_FRAME then [f.value] else []
  }

  /** The data frames among the contents. */
  function DataFrames(contents: seq<seq<byte>>): seq<KissFrame> {
    if contents == [] then [] else DataFrame(contents[0]) + DataFrames(contents[1..])
  }

  /** What passes as a data frame: a content that unescapes to a first byte with low nibble 0, and the data behind it. */
  lemma DataFrameIff(content: seq<byte>, f: KissFrame)
    requires content != []
    ensures DataFrame(content) == [f] <==>
              var u := Unescape(content);
              && u.Some? && u.value != [] && u.value[0] % 16 == 0
              && f == KissFrame((u.value[0] / 16) as int, 0, u.value[1..])
    ensures DataFrame(content) == [] || |DataFrame(content)| == 1
  {
    var u := Unescape(content);
    if u.Some? && u.value != [] {
      NibblesAre(u.value[0]);
    }
  }

  lemma FirstDataFrame(done: seq<KissFrame>, content: seq<byte>, rest: seq<seq<byte>>)
    ensures done + DataFrames([content] + rest) == done + DataFrame(content) + DataFrames(rest)
  {
    assert ([content] + rest)[1..] == rest;
  }

  lemma {:induction false} ScanConcat(p: Phase, a: seq<byte>, b: seq<byte>)
    ensures var x := Scan(p, a);
            var y := Scan(x.phase, b);
            Scan(p, a + b) == Scanned(y.phase, x.contents + y.contents)
    decreases |a|
  {
    if a == [] {
      assert a + b == b;
    } else {
      assert (a + b)[1..] == a[1..] + b;
      var next := if a[0] != FEND then (if p.Inside? then Inside(p.content + [a[0]]) else Outside)
                  else if p.Outside? then Inside([]) else Outside;
      ScanConcat(next, a[1..], b);
    }
  }

  lemma {:induction false} ScanPlain(p: Phase, s: seq<byte>)
    requires FEND !in s
    ensures Scan(p, s) == Scanned(if p.Inside? then Inside(p.content + s) else Outside, [])
    decreases |s|
  {
    if s == [] {
      if p.Inside? {
        assert p.content + s == p.content;
      }
    } else {
      assert s == [s[0]] + s[1..];
      if p.Inside? {
        ScanPlain(Inside(p.content + [s[0]]), s[1..]);
        assert p.content + [s[0]] + s[1..] == p.content + s;
      } else {
        ScanPlain(Outside, s[1..]);
      }
    }
  }

  lemma {:induction false} DataFramesConcat(a: seq<seq<byte>>, b: seq<seq<byte>>)
    ensures DataFrames(a + b) == DataFrames(a) + DataFrames(b)
  {
    if a == [] {
      assert a + b == b;
    } else {
      assert (a + b)[1..] == a[1..] + b;
      DataFramesConcat(a[1..], b);
    }
  }

  /** A whole delimited content seen from outside. */
  lemma ScanOne(content: seq<byte>, rest: seq<byte>)
    requires FEND !in content
    ensures Scan(Outside, [FEND] + content + [FEND] + rest)
         == Scanned(Scan(Outside, rest).phase, [content] + Scan(Outside, rest).contents)
  {
    var s := [FEND] + content + [FEND] + rest;
    assert s[1..] == content + ([FEND] + rest);
    ScanConcat(Inside([]), content, [FEND] + rest);
    ScanPlain(Inside([]), content);
    assert [] + content == content;
    assert ([FEND] + rest)[1..] == rest;
  }

  // ---- positions of the delimiters ----

  function Positions(s: seq<byte>, from: nat): seq<nat>
    requires from <= |s|
    decreases |s| - from
  {
    if from == |s| then []
    else (if s[from] == FEND then [from] else []) + Positions(s, from + 1)
  }

  ghost predicate Ascending(ps: seq<nat>) {
    forall j, k :: 0 <= j < k < |ps| ==> ps[j] < ps[k]
  }

  lemma PrependAscending(p: nat, rest: seq<nat>)
    requires Ascending(rest) && (forall i :: i in rest ==> p < i)
    ensures Ascending([p] + rest)
  {
    var ps := [p] + rest;
    forall j, k | 0 <= j < k < |ps|
      ensures ps[j] < ps[k]
    {
      assert ps[k] == rest[k - 1] && ps[k] in rest;
      if j > 0 {
        assert ps[j] == rest[j - 1];
      }
    }
  }

  lemma PrependMembers(p: nat, rest: seq<nat>)
    ensures forall i :: i in [p] + rest <==> i == p || i in rest
  {
  }

  lemma {:induction false} PositionsAreFends(s: seq<byte>, from: nat)
    requires from <= |s|
    ensures forall i :: i in Positions(s, from) <==> from <= i < |s| && s[i] == FEND
    ensures Ascending(Positions(s, from))
    decreases |s| - from
  {
    if from < |s| {
      PositionsAreFends(s, from + 1);
      if s[from] == FEND {
        PrependAscending(from, Positions(s, from + 1));
        PrependMembers(from, Positions(s, from + 1));
      } else {
        assert Positions(s, from) == Positions(s, from + 1);
      }
    }
  }

  /** The bytes strictly between the first and second listed position, the third and fourth, and so on. */
  function Between(s: seq<byte>, q: seq<nat>): seq<seq<byte>> {
    if |q| < 2 then []
    else [if q[0] < q[1] <= |s| then s[q[0] + 1..q[1]] else []] + Between(s, q[2..])
  }

  lemma {:induction false} BetweenAt(s: seq<byte>, q: seq<nat>, k: nat)
    requires 2 * k + 1 < |q| && q[2 * k] < q[2 * k + 1] <= |s|
    ensures k < |Between(s, q)| && Between(s, q)[k] == s[q[2 * k] + 1..q[2 * k + 1]]
  {
    if k > 0 {
      var later := q[2..];
      assert later[2 * (k - 1)] == q[2 * k] && later[2 * (k - 1) + 1] == q[2 * k + 1];
      BetweenAt(s, later, k - 1);
      assert Between(s, q)[1..] == Between(s, later);
    }
  }

  lemma {:induction false} BetweenSize(s: seq<byte>, q: seq<nat>)
    ensures |Between(s, q)| == |q| / 2
  {
    if |q| >= 2 {
      BetweenSize(s, q[2..]);
    }
  }

  /** Reading on from position i, with the opening position of the current frame, if any. */
  function ScanFrom(s: seq<byte>, i: nat, open: Option<nat>): Scanned
    requires i <= |s| && (open.Some? ==> open.value < i)
  {
    Scan(if open.Some? then Inside(s[open.value + 1..i]) else Outside, s[i..])
  }

  lemma ScanFromStep(s: seq<byte>, i: nat, open: Option<nat>)
    requires i < |s| && (open.Some? ==> open.value < i)
    ensures s[i] != FEND ==> ScanFrom(s, i, open) == ScanFrom(s, i + 1, open)
    ensures s[i] == FEND && open.None? ==> ScanFrom(s, i, open) == ScanFrom(s, i + 1, Some(i))
    ensures s[i] == FEND && open.Some? ==>
              var rest := ScanFrom(s, i + 1, None);
              ScanFrom(s, i, open) == Scanned(rest.phase, [s[open.value + 1..i]] + rest.contents)
  {
    assert s[i..][1..] == s[i + 1..];
    if s[i] != FEND {
      if open.Some? {
        assert s[open.value + 1..i] + [s[i]] == s[open.value + 1..i + 1];
      }
    } else if open.None? {
      assert s[i + 1..i + 1] == [];
    }
  }

  function OpenAnd(open: Option<nat>, rest: seq<nat>): seq<nat> {
    if open.Some? then [open.value] + rest else rest
  }

  /** The reading r pairs up the listed positions. */
  ghost predicate Pairs(s: seq<byte>, r: Scanned, q: seq<nat>) {
    r.contents == Between(s, q) && (r.phase.Outside? <==> |q| % 2 == 0)
  }

  lemma PairsStep(s: seq<byte>, rest: Scanned, from: nat, to: nat, q: seq<nat>)
    requires Pairs(s, rest, q) && from < to <= |s|
    ensures Pairs(s, Scanned(rest.phase, [s[from + 1..to]] + rest.contents), [from, to] + q)
  {
    assert ([from, to] + q)[2..] == q;
  }

  /** The reader pairs up the delimiters, the opening one of the current frame first. */
  lemma {:induction false} ScanPairs(s: seq<byte>, i: nat, open: Option<nat>)
    requires i <= |s| && (open.Some? ==> open.value < i)
    ensures Pairs(s, ScanFrom(s, i, open), OpenAnd(open, Positions(s, i)))
    decreases |s| - i
  {
    if i == |s| {
      assert s[i..] == [];
    } else {
      ScanFromStep(s, i, open);
      var rest := Positions(s, i + 1);
      if s[i] != FEND {
        assert Positions(s, i) == rest;
        ScanPairs(s, i + 1, open);
      } else if open.None? {
        assert OpenAnd(None, Positions(s, i)) == [i] + rest == OpenAnd(Some(i), rest);
        ScanPairs(s, i + 1, Some(i));
      } else {
        ScanPairs(s, i + 1, None);
        PairsStep(s, ScanFrom(s, i + 1, None), open.value, i, rest);
        assert OpenAnd(open, Positions(s, i)) == [open.value, i] + rest;
      }
    }
  }

  /** From a fresh start the contents are those between the 1st and 2nd, 3rd and 4th, ... FEND of the stream. */
  lemma ContentsArePairs(s: seq<byte>)
    ensures var ps := Positions(s, 0);
            var r := Scan(Outside, s);
            && |r.contents| == |ps| / 2
            && (r.phase.Outside? <==> |ps| % 2 == 0)
            && forall k :: 0 <= k < |r.contents| ==>
                 ps[2 * k] < ps[2 * k + 1] < |s| && r.contents[k] == s[ps[2 * k] + 1..ps[2 * k + 1]]
  {
    var ps := Positions(s, 0);
    var r := Scan(Outside, s);
    ScanPairs(s, 0, None);
    assert s[0..] == s;
    BetweenSize(s, ps);
    PositionsAreFends(s, 0);
    forall k | 0 <= k < |r.contents|
      ensures ps[2 * k] < ps[2 * k + 1] < |s| && r.contents[k] == s[ps[2 * k] + 1..ps[2 * k + 1]]
    {
      assert ps[2 * k + 1] in ps;
      BetweenAt(s, ps, k);
    }
  }

  /** How many FENDs there are. */
  function Fends(s: seq<byte>): nat {
    if s == [] then 0 else (if s[0] == FEND then 1 else 0) + Fends(s[1..])
  }

  lemma {:induction false} FendsConcat(a: seq<byte>, b: seq<byte>)
    ensures Fends(a + b) == Fends(a) + Fends(b)
  {
    if a == [] {
      assert a + b == b;
    } else {
      assert (a + b)[1..] == a[1..] + b;
      FendsConcat(a[1..], b);
    }
  }

  lemma {:induction false} NoFends(s: seq<byte>)
    requires FEND !in s
    ensures Fends(s) == 0
  {
    if s != [] {
      NoFends(s[1..]);
    }
  }

  /** From any phase, each FEND turns the phase over and nothing else does. */
  lemma {:induction false} PhaseIsParity(p: Phase, s: seq<byte>)
    ensures Scan(p, s).phase.Outside? <==> (p.Outside? <==> Fends(s) % 2 == 0)
    decreases |s|
  {
    if s != [] {
      var next := if s[0] != FEND then (if p.Inside? then Inside(p.content + [s[0]]) else Outside)
                  else if p.Outside? then Inside([]) else Outside;
      PhaseIsParity(next, s[1..]);
    }
  }

  // ---- the incremental decoder ----

  /** The first FEND at or after the position, or the length. */
  method FindFend(s: seq<byte>, from: nat) returns (at: nat)
    requires from <= |s|
    ensures from <= at <= |s| && FEND !in s[from..at]
    ensures at < |s| ==> s[at] == FEND
  {
    at := from;
    while at < |s|
      invariant from <= at <= |s| && FEND !in s[from..at]
    {
      if s[at] == FEND {
        return;
      }
      assert s[from..at + 1] == s[from..at] + [s[at]];
      at := at + 1;
    }
  }

  class KissProtocol {
    const port: int
    var buffer: seq<byte>

    constructor (port: int)
      ensures this.port == port && Valid() && State() == Outside
    {
      this.port := port;
      this.buffer := [];
    }

    /** Between calls the buffer is empty, or an opening FEND and the bytes since. */
    ghost predicate Valid()
      reads this
    {
      buffer == [] || (buffer[0] == FEND && FEND !in buffer[1..])
    }

    ghost function State(): Phase
      reads this
    {
      if buffer == [] then Outside else Inside(buffer[1..])
    }

    method EncodeData(data: seq<byte>) returns (result: seq<byte>)
      ensures result == Encoded(KissFrame(port, DATA_FRAME, data))
    {
      result := EncodeFrame(KissFrame(port, DATA_FRAME, data));
    }

    method Reset()
      modifies this
      ensures Valid() && State() == Outside
    {
      buffer := [];
    }

    /** Appends a chunk and takes out every complete frame; it does what the reference reader does. */
    method DecodeFrames(data: seq<byte>) returns (frames: seq<KissFrame>)
      requires Valid()
      modifies this
      ensures Valid()
      ensures var r := Scan(old(State()), data);
              State() == r.phase && frames == DataFrames(r.contents)
    {
      ghost var start := State();
      ghost var target := Scan(start, data);
      BufferedStart(buffer, data);
      buffer := buffer + data;
      frames := [];
      while true
        invariant Scan(Outside, buffer).phase == target.phase
        invariant frames + DataFrames(Scan(Outside, buffer).contents) == DataFrames(target.contents)
        decreases |buffer|
      {
        var frameData;
        ghost var before := buffer;
        buffer, frameData := TakeFrame(buffer);
        if frameData.None? {
          break;
        }
        var frame := DecodeKissFrame(frameData.value);
        ghost var content := frameData.value[1..|frameData.value| - 1];
        FirstDataFrame(frames, content, Scan(Outside, buffer).contents);
        if frame.Some? && frame.value.command == DATA_FRAME {
          frames := frames + [frame.value];
        } else {
          assert frames + [] == frames;
        }
      }
    }
  }

  /**
    * The body of the decoder's loop: skip to a FEND, find the next one, and cut the frame out. When
    * there is none to cut, the rest is what stays buffered.
    */
  method TakeFrame(buffer: seq<byte>) returns (rest: seq<byte>, frameData: Option<seq<byte>>)
    ensures frameData.None? ==>
              && (rest == [] || (rest[0] == FEND && FEND !in rest[1..]))
              && Scan(Outside, buffer) == Scanned(if rest == [] then Outside else Inside(rest[1..]), [])
              && Scan(Outside, rest) == Scan(Outside, buffer)
    ensures frameData.Some? ==>
              && |rest| < |buffer| && |frameData.value| >= 2
              && var content := frameData.value[1..|frameData.value| - 1];
              && StripFends(frameData.value) == content
              && var after := Scan(Outside, rest);
              && Scan(Outside, buffer) == Scanned(after.phase, [content] + after.contents)
  {
    var startIdx := FindFend(buffer, 0);
    SkipPlain(buffer, startIdx);
    if startIdx == |buffer| {
      return [], None;
    }
    var framed := buffer[startIdx..];
    var endIdx := FindFend(framed, 1);
    SplitFirst(framed, endIdx);
    if endIdx == |framed| {
      assert framed[1..endIdx] == framed[1..];
      return framed, None;
    }
    frameData := Some(framed[..endIdx + 1]);
    assert frameData.value[1..][..endIdx - 1] == framed[1..endIdx] == frameData.value[1..endIdx];
    rest := framed[endIdx + 1..];
  }

  /** The kept buffer stands for the phase it came from. */
  lemma BufferedStart(buffer: seq<byte>, data: seq<byte>)
    requires buffer == [] || (buffer[0] == FEND && FEND !in buffer[1..])
    ensures Scan(Outside, buffer + data) == Scan(if buffer == [] then Outside else Inside(buffer[1..]), data)
  {
    if buffer == [] {
      assert buffer + data == data;
    } else {
      ScanConcat(Outside, buffer, data);
      ScanPlain(Inside([]), buffer[1..]);
      assert [] + buffer[1..] == buffer[1..];
    }
  }

  /** Bytes before the first FEND are skipped. */
  lemma SkipPlain(s: seq<byte>, at: nat)
    requires at <= |s| && FEND !in s[0..at]
    ensures Scan(Outside, s) == Scan(Outside, s[at..])
  {
    var skipped, rest := s[0..at], s[at..];
    assert skipped + rest == s;
    ScanConcat(Outside, skipped, rest);
    ScanPlain(Outside, skipped);
    assert [] + Scan(Outside, rest).contents == Scan(Outside, rest).contents;
  }

  /** A buffer that starts with a FEND: either still inside that frame, or the frame and the rest. */
  lemma SplitFirst(s: seq<byte>, end: nat)
    requires s != [] && s[0] == FEND && 1 <= end <= |s| && FEND !in s[1..end]
    requires end < |s| ==> s[end] == FEND
    ensures end == |s| ==> Scan(Outside, s) == Scanned(Inside(s[1..]), [])
    ensures end < |s| ==>
              var rest := Scan(Outside, s[end + 1..]);
              Scan(Outside, s) == Scanned(rest.phase, [s[1..end]] + rest.contents)
  {
    if end == |s| {
      assert s[1..end] == s[1..];
      ScanPlain(Inside([]), s[1..]);
      assert [] + s[1..] == s[1..];
    } else {
      assert s == [FEND] + s[1..end] + [FEND] + s[end + 1..];
      ScanOne(s[1..end], s[end + 1..]);
    }
  }

  // ---- chunking ----

  function Flat(chunks: seq<seq<byte>>): seq<byte> {
    if chunks == [] then [] else chunks[0] + Flat(chunks[1..])
  }

  /** What successive calls with the chunks return, all together, starting from the given phase. */
  function FeedAll(p: Phase, chunks: seq<seq<byte>>): seq<KissFrame>
    decreases |chunks|
  {
    if chunks == [] then []
    else
      var r := Scan(p, chunks[0]);
      DataFrames(r.contents) + FeedAll(r.phase, chunks[1..])
  }

  /** Decoding does not depend on how the stream is cut into chunks. */
  lemma {:induction false} ChunkingInvariant(p: Phase, chunks: seq<seq<byte>>)
    ensures FeedAll(p, chunks) == DataFrames(Scan(p, Flat(chunks)).contents)
    decreases |chunks|
  {
    if chunks != [] {
      var r := Scan(p, chunks[0]);
      ScanConcat(p, chunks[0], Flat(chunks[1..]));
      ChunkingInvariant(r.phase, chunks[1..]);
      DataFramesConcat(r.contents, Scan(r.phase, Flat(chunks[1..])).contents);
    }
  }
}
