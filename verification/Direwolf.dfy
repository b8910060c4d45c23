/** The TNC client: payloads out as UI frames in KISS framing, and back through the receive filter. */
module Direwolf {
  import opened Wrappers
  import opened Messages
  import opened Text
  import opened Ax25
  import opened Kiss

  datatype SendError = NotConnected | BadAddress(error: AddressError) | WriteFailed

  const DESTINATION := "RFMP"

  /** The bytes that carry a payload from a station. */
  function Transmission(source: string, info: seq<byte>): Result<seq<byte>, AddressError> {
    var f := CreateUiFrame(source, DESTINATION, info);
    if f.Err? then Err(f.error) else Ok(Encoded(KissFrame(0, DATA_FRAME, FrameBytes(f.value))))
  }

  predicate IsRfmp(f: UiFrame) {
    f.control == UI_CONTROL && f.pid == NO_LAYER_3
  }

  /** What the receive filter passes on of one data frame. */
  function Payload(f: KissFrame): seq<seq<byte>> {
    var u := ReadFrame(f.data);
    if u.Some? && IsRfmp(u.value) then [u.value.info] else []
  }

  function Payloads(frames: seq<KissFrame>): seq<seq<byte>> {
    if frames == [] then [] else Payload(frames[0]) + Payloads(frames[1..])
  }

  /** The payloads in the contents read from a stream. */
  function Delivered(contents: seq<seq<byte>>): seq<seq<byte>> {
    Payloads(DataFrames(contents))
  }

  /** The payloads a receiver that starts afresh takes from a stream. */
  function Received(s: seq<byte>): seq<seq<byte>> {
    Delivered(Scan(Outside, s).contents)
  }

  lemma {:induction false} PayloadsConcat(a: seq<KissFrame>, b: seq<KissFrame>)
    ensures Payloads(a + b) == Payloads(a) + Payloads(b)
  {
    if a == [] {
      assert a + b == b;
    } else {
      assert (a + b)[1..] == a[1..] + b;
      PayloadsConcat(a[1..], b);
    }
  }

  lemma DeliveredConcat(a: seq<seq<byte>>, b: seq<seq<byte>>)
    ensures Delivered(a + b) == Delivered(a) + Delivered(b)
  {
    DataFramesConcat(a, b);
    PayloadsConcat(DataFrames(a), DataFrames(b));
  }

  // ---- the client ----

  class DirewolfClient {
    const callsign: string
    const ssid: int
    const kiss: KissProtocol
    var connected: bool
    /** The bytes written to the connection since it was opened, and the payloads handed to the callback. */
    var written: seq<byte>
    var delivered: seq<seq<byte>>

    constructor (callsign: string, ssid: int)
      ensures this.callsign == callsign && this.ssid == ssid && fresh(kiss)
      ensures Valid() && !connected && delivered == [] && kiss.State() == Outside
    {
      this.callsign := callsign;
      this.ssid := ssid;
      var k := new KissProtocol(0);
      this.kiss := k;
      this.connected := false;
      this.written := [];
      this.delivered := [];
    }

    ghost predicate Valid()
      reads this, kiss
    {
      kiss.Valid() && kiss.port == 0
    }

    /** A new connection starts with a fresh decoder. */
    method Connect()
      requires Valid()
      modifies this, kiss
      ensures Valid() && connected && written == [] && kiss.State() == Outside && delivered == old(delivered)
    {
      connected := true;
      written := [];
      kiss.Reset();
    }

    method Close()
      requires Valid()
      modifies this`connected
      ensures Valid() && !connected
    {
      connected := false;
    }

    function FullCallsign(): string {
      if ssid == 0 then callsign else callsign + "-" + Itoa(ssid)
    }

    /**
      * Writes the whole transmission, or nothing when there is no connection or no valid address, or the
      * part that the connection takes before it fails; accepted is how many bytes it would take.
      */
    method SendFrame(info: seq<byte>, accepted: nat) returns (r: Result<(), SendError>)
      requires Valid()
      modifies this`written
      ensures Valid()
      ensures var t := Transmission(FullCallsign(), info);
              && r == (if !connected then Err(NotConnected)
                       else if t.Err? then Err(BadAddress(t.error))
                       else if accepted < |t.value| then Err(WriteFailed)
                       else Ok(()))
              && written == old(written) + (if r.Ok? then t.value else if r.error.WriteFailed? then t.value[..accepted] else [])
    {
      if !connected {
        assert written + [] == written;
        return Err(NotConnected);
      }
      var frame := CreateUiFrame(FullCallsign(), DESTINATION, info);
      if frame.Err? {
        assert written + [] == written;
        return Err(BadAddress(frame.error));
      }
      var ax25Bytes := Ax25.EncodeFrame(frame.value);
      var kissBytes := kiss.EncodeData(ax25Bytes);
      if accepted < |kissBytes| {
        written := written + kissBytes[..accepted];
        return Err(WriteFailed);
      }
      written := written + kissBytes;
      return Ok(());
    }

    /** One chunk read from the connection: the callback gets the payloads completed by it, in order. */
    method Receive(chunk: seq<byte>)
      requires Valid()
      modifies this`delivered, kiss
      ensures Valid()
      ensures var r := Scan(old(kiss.State()), chunk);
              kiss.State() == r.phase && delivered == old(delivered) + Delivered(r.contents)
    {
      var frames := kiss.DecodeFrames(chunk);
      ghost var before := delivered;
      assert before + [] == before;
      for i := 0 to |frames|
        invariant kiss.Valid() && kiss.State() == Scan(old(kiss.State()), chunk).phase
        invariant delivered + Payloads(frames[i..]) == before + Payloads(frames)
      {
        var ax25Frame := Ax25.DecodeFrame(frames[i].data);
        assert frames[i..][1..] == frames[i + 1..];
        PayloadsOnto(delivered, frames[i..]);
        if ax25Frame.Some? && ax25Frame.value.control == UI_CONTROL && ax25Frame.value.pid == NO_LAYER_3 {
          delivered := delivered + [ax25Frame.value.info];
        } else {
          assert delivered + [] == delivered;
        }
      }
      assert delivered + [] == delivered;
    }
  }

  lemma PayloadsOnto(done: seq<seq<byte>>, frames: seq<KissFrame>)
    requires frames != []
    ensures done + Payloads(frames) == done + Payload(frames[0]) + Payloads(frames[1..])
  {
  }

  // ---- when a payload can be sent ----

  lemma DestinationParses()
    ensures ParseAddress(DESTINATION) == Ok(Address("RFMP", 0))
  {
    NoFirstIndex(DESTINATION, '-');
    assert ToUpper(DESTINATION) == "RFMP";
  }

  /**
    * What a station can be configured to: a callsign of at most six characters with an SSID of 0..15, given
    * apart, or both in one callsign with a dash and no SSID beside it.
    */
  predicate CanSend(callsign: string, ssid: int) {
    var i := FirstIndex(callsign, '-');
    if i == |callsign| then i <= 6 && 0 <= ssid <= 15
    else
      var n := Atoi(callsign[i + 1..]);
      ssid == 0 && i <= 6 && n.Some? && 0 <= n.value <= 15
  }

  lemma DashFreeParses(callsign: string, ssid: int)
    requires IsInt(ssid) && '-' !in callsign
    ensures ParseAddress(AddressString(Address(callsign, ssid))).Ok? <==> |callsign| <= 6 && 0 <= ssid <= 15
  {
    var s := AddressString(Address(callsign, ssid));
    if ssid == 0 {
      NoFirstIndex(s, '-');
    } else {
      FirstIndexAt(callsign, '-', Itoa(ssid));
      assert s == callsign + ['-'] + Itoa(ssid);
      assert s[..|callsign|] == callsign && s[|callsign| + 1..] == Itoa(ssid);
      ItoaRoundTrip(ssid);
    }
  }

  /** A second dash makes the SSID text unreadable, and a lone one in front makes the SSID negative. */
  lemma SecondDashFails(between: string, ssid: int)
    requires IsInt(ssid) && ssid != 0
    ensures var n := Atoi(between + "-" + Itoa(ssid));
            n.None? || n.value < 0
  {
    var text := between + "-" + Itoa(ssid);
    if |between| >= 1 {
      AtoiNeedsDigits(text, |between|);
    } else if ssid < 0 {
      assert text[1] == '-';
      AtoiNeedsDigits(text, 1);
    } else {
      DigitsRoundTrip(ssid);
      AtoiOf(-ssid, Digits(ssid));
      assert text == "-" + Digits(ssid);
    }
  }

  lemma ParseAtDash(before: string, rest: string)
    requires '-' !in before
    ensures ParseAddress(before + "-" + rest).Ok? ==> Atoi(rest).Some? && Atoi(rest).value >= 0
  {
    var s := before + ['-'] + rest;
    FirstIndexAt(before, '-', rest);
    assert s[|before| + 1..] == rest;
  }

  lemma DashSplits(callsign: string, i: nat, ssid: int)
    requires i < |callsign| && callsign[i] == '-' && ssid != 0
    ensures AddressString(Address(callsign, ssid)) == callsign[..i] + "-" + (callsign[i + 1..] + "-" + Itoa(ssid))
  {
    assert callsign == callsign[..i] + ['-'] + callsign[i + 1..];
  }

  lemma DashedParses(callsign: string, ssid: int)
    requires IsInt(ssid) && ssid != 0 && '-' in callsign
    ensures ParseAddress(AddressString(Address(callsign, ssid))).Err?
  {
    HasFirstIndex(callsign, '-');
    var i := FirstIndex(callsign, '-');
    DashSplits(callsign, i, ssid);
    ParseAtDash(callsign[..i], callsign[i + 1..] + "-" + Itoa(ssid));
    SecondDashFails(callsign[i + 1..], ssid);
  }

  lemma SendsIffParses(source: string, info: seq<byte>)
    ensures Transmission(source, info).Ok? <==> ParseAddress(source).Ok?
  {
    DestinationParses();
  }

  lemma DashedAloneParses(callsign: string)
    requires '-' in callsign
    ensures ParseAddress(AddressString(Address(callsign, 0))).Ok? <==> CanSend(callsign, 0)
  {
    HasFirstIndex(callsign, '-');
  }

  /** A station can send any payload exactly when its configured callsign and SSID fit the address field. */
  lemma CanSendIff(callsign: string, ssid: int, info: seq<byte>)
    requires IsInt(ssid)
    ensures Transmission(AddressString(Address(callsign, ssid)), info).Ok? <==> CanSend(callsign, ssid)
  {
    SendsIffParses(AddressString(Address(callsign, ssid)), info);
    if '-' !in callsign {
      NoFirstIndex(callsign, '-');
      DashFreeParses(callsign, ssid);
    } else if ssid == 0 {
      DashedAloneParses(callsign);
    } else {
      HasFirstIndex(callsign, '-');
      DashedParses(callsign, ssid);
    }
  }

  // ---- end to end ----

  /** The escaped content of a transmission, without its delimiters. */
  function Inner(info: seq<byte>, source: string): seq<byte>
    requires Transmission(source, info).Ok?
  {
    Escape(Content(KissFrame(0, DATA_FRAME, FrameBytes(CreateUiFrame(source, DESTINATION, info).value))))
  }

  /** The receive filter passes on what a UI frame of this protocol carries. */
  lemma FrameDelivers(u: UiFrame)
    requires IsRfmp(u)
    ensures Payload(KissFrame(0, DATA_FRAME, FrameBytes(u))) == [u.info]
  {
    FrameBack(u);
  }

  lemma OneDelivers(content: seq<byte>, f: KissFrame, info: seq<byte>)
    requires DataFrame(content) == [f] && Payload(f) == [info]
    ensures Delivered([content]) == [info]
  {
    assert [content][1..] == [] && [f][1..] == [];
    assert DataFrames([content]) == [f] + [] == [f];
    assert Payloads([f]) == [info] + Payloads([]);
  }

  /** A transmission is one delimited content, and that content delivers its payload. */
  lemma TransmissionDelivers(source: string, info: seq<byte>)
    requires Transmission(source, info).Ok?
    ensures Transmission(source, info).value == [FEND] + Inner(info, source) + [FEND]
    ensures FEND !in Inner(info, source)
    ensures Delivered([Inner(info, source)]) == [info]
  {
    var u := CreateUiFrame(source, DESTINATION, info).value;
    var f := KissFrame(0, DATA_FRAME, FrameBytes(u));
    EscapeHasNoFend(Content(f));
    InnerBack(f);
    FrameDelivers(u);
    OneDelivers(Inner(info, source), f, info);
  }

  /** The bytes hold one delimited content that delivers the payload. */
  ghost predicate Carries(wire: seq<byte>, info: seq<byte>) {
    exists inner :: IsCarrier(wire, inner, info)
  }

  ghost predicate IsCarrier(wire: seq<byte>, inner: seq<byte>, info: seq<byte>) {
    wire == [FEND] + inner + [FEND] && FEND !in inner && Delivered([inner]) == [info]
  }

  lemma TransmissionCarries(source: string, info: seq<byte>)
    requires Transmission(source, info).Ok?
    ensures Carries(Transmission(source, info).value, info)
  {
    TransmissionDelivers(source, info);
    assert IsCarrier(Transmission(source, info).value, Inner(info, source), info);
  }

  lemma DestinationOnAir()
    ensures OnAir(Address("RFMP", 0)) == Address("RFMP", 0)
  {
    OnAirIff(Address("RFMP", 0));
  }

  lemma UiFrameIs(source: string, info: seq<byte>)
    requires ParseAddress(source).Ok?
    ensures var u := CreateUiFrame(source, DESTINATION, info);
            u.Ok? && u.value.destination.callsign == "RFMP" && u.value.destination.ssid == 0
            && u.value.source == ParseAddress(source).value && u.value.digipeaters == []
            && u.value.control == 0x03 && u.value.pid == 0xF0 && u.value.info == info
  {
    DestinationParses();
  }

  /** The frame for the modem, and how it reads. */
  lemma UiFrameReads(source: string, info: seq<byte>)
    requires ParseAddress(source).Ok?
    ensures var u := CreateUiFrame(source, DESTINATION, info);
            && u.Ok?
            && ReadFrame(FrameBytes(u.value))
               == Some(UiFrame(Address("RFMP", 0), OnAir(ParseAddress(source).value), [], 0x03, 0xF0, info))
  {
    UiFrameIs(source, info);
    DestinationOnAir();
    FrameBack(CreateUiFrame(source, DESTINATION, info).value);
    assert OnAirAll([]) == [];
  }

  /**
    * What a station puts on the air: one KISS data frame on port 0 that holds a UI frame (control 0x03, PID 0xF0) from
    * the station to RFMP, without digipeaters, around the payload.
    */
  lemma TransmissionReads(source: string, info: seq<byte>)
    requires ParseAddress(source).Ok?
    ensures Transmission(source, info).Ok?
    ensures var f := Decoded(Transmission(source, info).value);
            && f.Some? && f.value.port == 0 && f.value.command == 0
            && ReadFrame(f.value.data)
               == Some(UiFrame(Address("RFMP", 0), OnAir(ParseAddress(source).value), [], 0x03, 0xF0, info))
  {
    UiFrameReads(source, info);
    FrameRoundTripIff(KissFrame(0, DATA_FRAME, FrameBytes(CreateUiFrame(source, DESTINATION, info).value)));
  }

  /** The receive filter: a payload is passed on exactly for a UI frame with control 0x03 and PID 0xF0, and only its own. */
  lemma PayloadIff(f: KissFrame, info: seq<byte>)
    ensures Payload(f) == [info] <==>
              var u := ReadFrame(f.data);
              u.Some? && u.value.control == 0x03 && u.value.pid == 0xF0 && u.value.info == info
    ensures Payload(f) == [] <==>
              var u := ReadFrame(f.data);
              !(u.Some? && u.value.control == 0x03 && u.value.pid == 0xF0)
  {
  }

  /** Noise on the channel, then what a station put on the air for a payload. */
  datatype Burst = Burst(noise: seq<byte>, source: string, info: seq<byte>, wire: seq<byte>)

  ghost predicate IsSent(b: Burst) {
    Transmission(b.source, b.info) == Ok(b.wire)
  }

  function StreamOf(bursts: seq<Burst>): seq<byte> {
    if bursts == [] then [] else bursts[0].noise + bursts[0].wire + StreamOf(bursts[1..])
  }

  function Infos(bursts: seq<Burst>): seq<seq<byte>> {
    if bursts == [] then [] else [bursts[0].info] + Infos(bursts[1..])
  }

  /** One carried payload in front of anything, seen from between frames. */
  lemma ReceiveOne(noise: seq<byte>, wire: seq<byte>, info: seq<byte>, rest: seq<byte>)
    requires FEND !in noise && Carries(wire, info)
    ensures Received(noise + wire + rest) == [info] + Received(rest)
  {
    var inner :| IsCarrier(wire, inner, info);
    var framed := [FEND] + inner + [FEND] + rest;
    assert noise + wire + rest == noise + framed;
    ScanConcat(Outside, noise, framed);
    ScanPlain(Outside, noise);
    ScanOne(inner, rest);
    assert Scan(Outside, noise + framed).contents == [inner] + Scan(Outside, rest).contents;
    DeliveredConcat([inner], Scan(Outside, rest).contents);
  }

  lemma {:induction false} StreamDelivers(bursts: seq<Burst>, tail: seq<byte>)
    requires forall b :: b in bursts ==> FEND !in b.noise && Carries(b.wire, b.info)
    requires FEND !in tail
    ensures Received(StreamOf(bursts) + tail) == Infos(bursts)
  {
    if bursts == [] {
      assert StreamOf(bursts) + tail == tail;
      ScanPlain(Outside, tail);
    } else {
      var b := bursts[0];
      var rest := StreamOf(bursts[1..]) + tail;
      StreamDelivers(bursts[1..], tail);
      assert b in bursts;
      ReceiveOne(b.noise, b.wire, b.info, rest);
      assert StreamOf(bursts) + tail == b.noise + b.wire + rest;
    }
  }

  /** The payloads delivered by successive chunks, all together. */
  function FeedPayloads(p: Phase, chunks: seq<seq<byte>>): seq<seq<byte>> {
    Payloads(FeedAll(p, chunks))
  }

  /** They are what successive calls of the client's receive method hand to the callback. */
  lemma FeedStep(p: Phase, chunks: seq<seq<byte>>)
    ensures FeedPayloads(p, chunks)
         == if chunks == [] then []
            else Delivered(Scan(p, chunks[0]).contents) + FeedPayloads(Scan(p, chunks[0]).phase, chunks[1..])
  {
    if chunks != [] {
      var r := Scan(p, chunks[0]);
      PayloadsConcat(DataFrames(r.contents), FeedAll(r.phase, chunks[1..]));
    }
  }

  /**
    * Any payloads from any stations, with noise free of FENDs before, between and after them, cut into
    * chunks in any way, are delivered exactly, in order.
    */
  lemma EndToEnd(bursts: seq<Burst>, tail: seq<byte>, chunks: seq<seq<byte>>)
    requires forall b :: b in bursts ==> FEND !in b.noise && IsSent(b)
    requires FEND !in tail && Flat(chunks) == StreamOf(bursts) + tail
    ensures FeedPayloads(Outside, chunks) == Infos(bursts)
  {
    ChunkingInvariant(Outside, chunks);
    forall b | b in bursts
      ensures FEND !in b.noise && Carries(b.wire, b.info)
    {
      TransmissionCarries(b.source, b.info);
    }
    StreamDelivers(bursts, tail);
  }

  // ---- noise that holds delimiters ----

  /** Seen from inside a frame, a transmission ends that frame, is itself skipped, and leaves a frame open. */
  lemma SkippedInside(c: seq<byte>, wire: seq<byte>, info: seq<byte>)
    requires Carries(wire, info)
    ensures Scan(Inside(c), wire) == Scanned(Inside([]), [c])
  {
    var inner :| IsCarrier(wire, inner, info);
    assert wire[1..] == inner + [FEND];
    ScanConcat(Outside, inner, [FEND]);
    ScanPlain(Outside, inner);
    assert [FEND][1..] == [];
    assert Scan(Outside, [FEND]) == Scanned(Inside([]), []);
  }

  /** After any noise the next transmission is added, or only ends the frame that the noise left open. */
  lemma AfterNoise(noise: seq<byte>, wire: seq<byte>, info: seq<byte>)
    requires Carries(wire, info)
    ensures var p := Scan(Outside, noise).phase;
            var added := if p.Outside? then [info] else Delivered([p.content]);
            Received(noise + wire) == Received(noise) + added
  {
    var r := Scan(Outside, noise);
    ScanConcat(Outside, noise, wire);
    if r.phase.Outside? {
      ReceiveOne([], wire, info, []);
      assert [] + wire + [] == wire;
      assert Received([]) == [];
    } else {
      SkippedInside(r.phase.content, wire, info);
    }
    DeliveredConcat(r.contents, Scan(r.phase, wire).contents);
  }

  /** The FENDs in the noise in front of the first bursts. */
  function NoiseFends(bursts: seq<Burst>): nat {
    if bursts == [] then 0 else Fends(bursts[0].noise) + NoiseFends(bursts[1..])
  }

  lemma CarrierHasTwoFends(wire: seq<byte>, info: seq<byte>)
    requires Carries(wire, info)
    ensures Fends(wire) == 2
  {
    var inner :| IsCarrier(wire, inner, info);
    NoFends(inner);
    FendsConcat([FEND] + inner, [FEND]);
    FendsConcat([FEND], inner);
    assert [FEND][1..] == [];
  }

  lemma FendsOfThree(a: seq<byte>, b: seq<byte>, c: seq<byte>)
    ensures Fends(a + b + c) == Fends(a) + Fends(b) + Fends(c)
  {
    FendsConcat(a, b);
    FendsConcat(a + b, c);
  }

  ghost predicate AllCarry(bursts: seq<Burst>) {
    forall b :: b in bursts ==> Carries(b.wire, b.info)
  }

  /** Transmissions add two FENDs each, so only noise decides the parity of a stream. */
  lemma {:induction false} StreamFends(bursts: seq<Burst>)
    requires AllCarry(bursts)
    ensures Fends(StreamOf(bursts)) == NoiseFends(bursts) + 2 * |bursts|
  {
    if bursts != [] {
      var b := bursts[0];
      assert b in bursts && AllCarry(bursts[1..]);
      StreamFends(bursts[1..]);
      CarrierHasTwoFends(b.wire, b.info);
      FendsOfThree(b.noise, b.wire, StreamOf(bursts[1..]));
    }
  }

  /** A transmission from any phase: it adds its payload, or only ends the frame that was open. */
  lemma WireFrom(p: Phase, wire: seq<byte>, info: seq<byte>)
    requires Carries(wire, info)
    ensures Delivered(Scan(p, wire).contents) == if p.Outside? then [info] else Delivered([p.content])
    ensures Scan(p, wire).phase == if p.Outside? then Outside else Inside([])
  {
    if p.Outside? {
      var inner :| IsCarrier(wire, inner, info);
      ScanOne(inner, []);
      assert [FEND] + inner + [FEND] + [] == wire;
      assert [inner] + Scan(Outside, []).contents == [inner];
    } else {
      SkippedInside(p.content, wire, info);
    }
  }

  lemma {:induction false} StreamConcat(a: seq<Burst>, b: seq<Burst>)
    ensures StreamOf(a + b) == StreamOf(a) + StreamOf(b)
  {
    if a == [] {
      assert a + b == b;
    } else {
      assert (a + b)[1..] == a[1..] + b;
      StreamConcat(a[1..], b);
    }
  }

  /** What stands in front of a transmission: the earlier bursts and its own noise. */
  function Ahead(before: seq<Burst>, noise: seq<byte>): seq<byte> {
    StreamOf(before) + noise
  }

  lemma FendsAhead(before: seq<Burst>, noise: seq<byte>)
    requires AllCarry(before)
    ensures Fends(Ahead(before, noise)) % 2 == (NoiseFends(before) + Fends(noise)) % 2
  {
    StreamFends(before);
    FendsConcat(StreamOf(before), noise);
    EvenAdded(NoiseFends(before) + Fends(noise), |before|);
  }

  lemma EvenAdded(a: nat, n: nat)
    ensures (a + 2 * n) % 2 == a % 2
  {
  }

  lemma PhaseAhead(p: Phase, before: seq<Burst>, noise: seq<byte>)
    requires AllCarry(before)
    ensures Scan(p, Ahead(before, noise)).phase.Outside? <==> (p.Outside? <==> (NoiseFends(before) + Fends(noise)) % 2 == 0)
  {
    FendsAhead(before, noise);
    PhaseIsParity(p, Ahead(before, noise));
  }

  /**
    * Any transmission in any stream, from any phase, under any noise: what comes ahead of it is read first; then its
    * payload is delivered in place if and only if the FENDs of all the noise ahead of it are even in number (odd, if
    * the reader began inside a frame), and otherwise it only ends the frame left open; then the rest is read.
    */
  lemma BurstInPlace(p: Phase, before: seq<Burst>, b: Burst, rest: seq<Burst>)
    requires AllCarry(before) && Carries(b.wire, b.info)
    ensures var r := Scan(p, Ahead(before, b.noise));
            var after := if r.phase.Outside? then Outside else Inside([]);
            var added := if r.phase.Outside? then [b.info] else Delivered([r.phase.content]);
            && (r.phase.Outside? <==> (p.Outside? <==> (NoiseFends(before) + Fends(b.noise)) % 2 == 0))
            && Delivered(Scan(p, StreamOf(before + [b] + rest)).contents)
               == Delivered(r.contents) + added + Delivered(Scan(after, StreamOf(rest)).contents)
  {
    PhaseAhead(p, before, b.noise);
    StreamSplit(before, b, rest);
    WireFrom(Scan(p, Ahead(before, b.noise)).phase, b.wire, b.info);
    ReadOn(p, Ahead(before, b.noise), b.wire, StreamOf(rest));
  }

  lemma StreamSplit(before: seq<Burst>, b: Burst, rest: seq<Burst>)
    ensures StreamOf(before + [b] + rest) == Ahead(before, b.noise) + b.wire + StreamOf(rest)
  {
    assert before + [b] + rest == before + ([b] + rest);
    StreamConcat(before, [b] + rest);
    assert ([b] + rest)[1..] == rest;
    assert StreamOf([b] + rest) == b.noise + b.wire + StreamOf(rest);
    assert StreamOf(before) + (b.noise + b.wire + StreamOf(rest)) == StreamOf(before) + b.noise + b.wire + StreamOf(rest);
  }

  /** Reading three pieces one after the other. */
  lemma ReadOn(p: Phase, a: seq<byte>, b: seq<byte>, c: seq<byte>)
    ensures var x := Scan(p, a);
            var y := Scan(x.phase, b);
            var z := Scan(y.phase, c);
            Delivered(Scan(p, a + b + c).contents) == Delivered(x.contents) + Delivered(y.contents) + Delivered(z.contents)
  {
    var x := Scan(p, a);
    var y := Scan(x.phase, b);
    ScanConcat(p, a, b);
    ScanConcat(p, a + b, c);
    DeliveredConcat(x.contents, y.contents);
    DeliveredConcat(x.contents + y.contents, Scan(y.phase, c).contents);
  }

  predicate Survives(noise: seq<byte>, source: string, info: seq<byte>) {
    && Transmission(source, info).Ok?
    && Received(noise + Transmission(source, info).value) == Received(noise) + [info]
  }

  lemma SamePrefix<T>(a: seq<T>, b: seq<T>, c: seq<T>)
    ensures a + b == a + c <==> b == c
  {
    if a + b == a + c {
      assert b == (a + b)[|a|..] == (a + c)[|a|..] == c;
    }
  }

  /** Whether a station can send does not depend on the payload. */
  lemma SendsAnything(source: string, info: seq<byte>, other: seq<byte>)
    requires Transmission(source, info).Ok?
    ensures Transmission(source, other).Ok?
  {
  }

  lemma SurvivesWhen(noise: seq<byte>, source: string, info: seq<byte>)
    requires Transmission(source, []).Ok?
    ensures Transmission(source, info).Ok?
    ensures var p := Scan(Outside, noise).phase;
            Survives(noise, source, info) <==> (p.Outside? || Delivered([p.content]) == [info])
  {
    SendsAnything(source, [], info);
    TransmissionCarries(source, info);
    AfterNoise(noise, Transmission(source, info).value, info);
    var p := Scan(Outside, noise).phase;
    SamePrefix(Received(noise), if p.Outside? then [info] else Delivered([p.content]), [info]);
  }

  lemma NoneSurvivesInside(noise: seq<byte>, source: string)
    requires Transmission(source, []).Ok? && Scan(Outside, noise).phase.Inside?
    ensures exists info :: !Survives(noise, source, info)
  {
    var ended := Delivered([Scan(Outside, noise).phase.content]);
    var other: seq<byte> := if ended == [[]] then [FEND] else [];
    SurvivesWhen(noise, source, other);
    assert !Survives(noise, source, other);
  }

  /** Every payload survives the noise in front of it exactly when the noise holds an even number of FENDs. */
  lemma SurvivesIffEven(noise: seq<byte>, source: string)
    requires Transmission(source, []).Ok?
    ensures (forall info :: Survives(noise, source, info)) <==> Fends(noise) % 2 == 0
  {
    PhaseIsParity(Outside, noise);
    if Scan(Outside, noise).phase.Outside? {
      forall info
        ensures Survives(noise, source, info)
      {
        SurvivesWhen(noise, source, info);
      }
    } else {
      NoneSurvivesInside(noise, source);
    }
  }

  lemma NothingInEmpty()
    ensures Delivered([[]]) == []
  {
    var none: seq<seq<byte>> := [[]];
    assert none[1..] == [];
  }

  ghost predicate AreBackToBack(bursts: seq<Burst>) {
    forall b :: b in bursts ==> b.noise == []
  }

  lemma SilentHead(bursts: seq<Burst>)
    requires bursts != [] && bursts[0].noise == []
    ensures StreamOf(bursts) == bursts[0].wire + StreamOf(bursts[1..])
  {
    assert bursts[0].noise + bursts[0].wire == bursts[0].wire;
  }

  lemma SkipOne(c: seq<byte>, wire: seq<byte>, info: seq<byte>, rest: seq<byte>)
    requires Carries(wire, info)
    ensures Delivered(Scan(Inside(c), wire + rest).contents)
         == Delivered([c]) + Delivered(Scan(Inside([]), rest).contents)
  {
    SkippedInside(c, wire, info);
    ScanConcat(Inside(c), wire, rest);
    DeliveredConcat([c], Scan(Inside([]), rest).contents);
  }

  lemma {:induction false} AllSkipped(c: seq<byte>, bursts: seq<Burst>)
    requires AreBackToBack(bursts) && AllCarry(bursts)
    ensures Delivered(Scan(Inside(c), StreamOf(bursts)).contents) == (if bursts == [] then [] else Delivered([c]))
    decreases |bursts|
  {
    if bursts != [] {
      var b, later := bursts[0], bursts[1..];
      var rest := StreamOf(later);
      assert b in bursts && AllCarry(later) && AreBackToBack(later);
      SilentHead(bursts);
      SkipOne(c, b.wire, b.info, rest);
      AllSkipped([], later);
      NothingInEmpty();
    }
  }

  /** A phase error does not heal by itself: back-to-back transmissions are then all lost, however many come. */
  lemma PhaseErrorLosesAll(c: seq<byte>, bursts: seq<Burst>)
    requires AreBackToBack(bursts) && forall b :: b in bursts ==> IsSent(b)
    ensures Delivered(Scan(Inside(c), StreamOf(bursts)).contents) == (if bursts == [] then [] else Delivered([c]))
  {
    forall b | b in bursts
      ensures Carries(b.wire, b.info)
    {
      TransmissionCarries(b.source, b.info);
    }
    AllSkipped(c, bursts);
  }
}
