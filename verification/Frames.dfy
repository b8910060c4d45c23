/** Queue rows and message rows: frames written as text fields and read back. */
module Frames {
  import opened Wrappers
  import opened Messages
  import opened Text

  type Dict = map<string, string>

  /** A missing field reads as the empty string. */
  function Field(d: Dict, key: string): string {
    if key in d then d[key] else ""
  }

  /** The timestamp format and its parser. */
  datatype TimeText = TimeText(format: int -> string, parse: string -> Option<int>)

  ghost predicate ReadsBack(tt: TimeText, time: int) {
    tt.parse(tt.format(time)) == Some(time)
  }

  function IdFromHex(s: string): Option<MsgId> {
    var b := HexDecode(s);
    if b.Some? && |b.value| == 6 then Some(b.value) else None
  }

  lemma IdRoundTrip(id: MsgId)
    ensures IdFromHex(HexEncode(id)) == Some(id) && |HexEncode(id)| == 12
  {
    HexRoundTrip(id);
  }

  // ---- MSG ----

  predicate ValidChannel(channel: string) {
    forall i :: 0 <= i < |channel| ==> channel[i] as int <= 127 && !('A' <= channel[i] <= 'Z')
  }

  lemma ChannelCharacters(channel: string)
    ensures ValidChannel(channel) <==>
              forall c :: c in channel ==> c as int < 128 && c !in "ABCDEFGHIJKLMNOPQRSTUVWXYZ"
  {
    forall c: char
      ensures 'A' <= c <= 'Z' <==> c in "ABCDEFGHIJKLMNOPQRSTUVWXYZ"
    {
      UpperCaseIs(c);
    }
    assert forall i :: 0 <= i < |channel| ==> channel[i] in channel;
  }

  lemma UpperCaseIs(c: char)
    ensures 'A' <= c <= 'Z' <==> c in "ABCDEFGHIJKLMNOPQRSTUVWXYZ"
  {
    var letters := "ABCDEFGHIJKLMNOPQRSTUVWXYZ";
    if 'A' <= c <= 'Z' {
      assert letters[c as int - 65] == c;
    }
  }

  method IsValidChannel(channel: string) returns (ok: bool)
    ensures ok <==> ValidChannel(channel)
    ensures ok <==> forall c :: c in channel ==> c as int < 128 && c !in "ABCDEFGHIJKLMNOPQRSTUVWXYZ"
  {
    ChannelCharacters(channel);
    for i := 0 to |channel|
      invariant ValidChannel(channel[..i])
    {
      var c := channel[i];
      if c as int > 127 {
        return false;
      }
      if c >= 'A' && c <= 'Z' {
        return false;
      }
    }
    assert channel[..|channel|] == channel;
    return true;
  }

  function MsgToDict(m: Msg, tt: TimeText): Dict {
    var d := map[
      "id" := HexEncode(m.id),
      "from" := m.from,
      "time" := tt.format(m.time),
      "chan" := m.channel,
      "reply" := if m.replyTo.Some? then HexEncode(m.replyTo.value) else "",
      "body" := m.body,
      "author" := m.author];
    if m.seqNo.Some? then d["seq" := Itoa(m.seqNo.value)] else d
  }

  /** The reply field: absent, or an id that must parse. */
  function ReplyFrom(reply: string): Option<Option<MsgId>> {
    if reply == "" || reply == "-" then Some(None)
    else
      var id := IdFromHex(reply);
      if id.Some? then Some(id) else None
  }

  /** The seq field: absent, or a number that must be at least 1. */
  function SeqFrom(field: string): Option<Option<int>> {
    if field == "" then Some(None)
    else
      var n := Atoi(field);
      if n.Some? && n.value >= 1 then Some(n) else None
  }

  function MsgFromDict(d: Dict, tt: TimeText): Option<Msg> {
    var id := IdFromHex(Field(d, "id"));
    var channel := Field(d, "chan");
    var time := tt.parse(Field(d, "time"));
    var reply := ReplyFrom(Field(d, "reply"));
    var seqNo := SeqFrom(Field(d, "seq"));
    if id.None? || !ValidChannel(channel) || time.None? || reply.None? || seqNo.None? then None
    else Some(Msg(id.value, Field(d, "from"), time.value, channel, reply.value, Field(d, "body"), seqNo.value,
                  Field(d, "author")))
  }

  lemma ReplyReadsBack(reply: Option<MsgId>)
    ensures ReplyFrom(if reply.Some? then HexEncode(reply.value) else "") == Some(reply)
  {
    if reply.Some? {
      IdRoundTrip(reply.value);
    }
  }

  lemma SeqReadsBack(seqNo: Option<int>)
    requires seqNo.Some? ==> IsInt(seqNo.value)
    ensures SeqFrom(if seqNo.Some? then Itoa(seqNo.value) else "") == Some(seqNo)
       <==> (seqNo.Some? ==> seqNo.value >= 1)
  {
    if seqNo.Some? {
      ItoaRoundTrip(seqNo.value);
    }
  }

  /**
    * A queued MSG row names each field of its message, and reads back as the message exactly when the channel is valid
    * and the number, if any, is positive.
    */
  lemma MsgRowUndoIff(m: Msg, tt: TimeText)
    requires ReadsBack(tt, m.time) && (m.seqNo.Some? ==> IsInt(m.seqNo.value))
    ensures MsgFromDict(MsgToDict(m, tt), tt) == Some(m)
       <==> ValidChannel(m.channel) && (m.seqNo.Some? ==> m.seqNo.value >= 1)
    ensures var d := MsgToDict(m, tt);
            && IdFromHex(Field(d, "id")) == Some(m.id) && Field(d, "from") == m.from && Field(d, "chan") == m.channel
            && tt.parse(Field(d, "time")) == Some(m.time) && Field(d, "body") == m.body && Field(d, "author") == m.author
            && (m.replyTo.Some? ==> IdFromHex(Field(d, "reply")) == m.replyTo)
            && ("seq" in d <==> m.seqNo.Some?) && (m.seqNo.Some? ==> d["seq"] == Itoa(m.seqNo.value))
  {
    var d := MsgToDict(m, tt);
    IdRoundTrip(m.id);
    ReplyReadsBack(m.replyTo);
    SeqReadsBack(m.seqNo);
    assert Field(d, "seq") == if m.seqNo.Some? then Itoa(m.seqNo.value) else "";
    assert Field(d, "reply") == if m.replyTo.Some? then HexEncode(m.replyTo.value) else "";
  }

  // ---- FRAG ----

  function FragToDict(f: Frag): Dict {
    map["msgid" := HexEncode(f.id), "idx" := Itoa(f.idx), "total" := Itoa(f.total), "data" := HexEncode(f.data)]
  }

  function FragFromDict(d: Dict): Option<Frag> {
    var id := IdFromHex(Field(d, "msgid"));
    var idx := Atoi(Field(d, "idx"));
    var total := Atoi(Field(d, "total"));
    var data := HexDecode(Field(d, "data"));
    if id.None? || idx.None? || total.None? || idx.value < 0 || idx.value >= total.value || data.None? then None
    else Some(Frag(id.value, idx.value, total.value, data.value))
  }

  /** A queued FRAG row names each field, and reads back as its fragment exactly when the index is inside the total. */
  lemma FragRowUndoIff(f: Frag)
    requires IsInt(f.idx) && IsInt(f.total)
    ensures FragFromDict(FragToDict(f)) == Some(f) <==> 0 <= f.idx < f.total
    ensures var d := FragToDict(f);
            && IdFromHex(Field(d, "msgid")) == Some(f.id) && HexDecode(Field(d, "data")) == Some(f.data)
            && Atoi(Field(d, "idx")) == Some(f.idx) && Atoi(Field(d, "total")) == Some(f.total)
  {
    IdRoundTrip(f.id);
    HexRoundTrip(f.data);
    ItoaRoundTrip(f.idx);
    ItoaRoundTrip(f.total);
  }

  // ---- SVEC ----

  function Entry(vector: Vector, key: string): string
    requires key in vector
  {
    key + ":" + Itoa(vector[key])
  }

  /** The keys in some order, each once. */
  ghost predicate IsListing(keys: seq<string>, vector: Vector) {
    && (forall k :: k in keys <==> k in vector)
    && forall i, j :: 0 <= i < j < |keys| ==> keys[i] != keys[j]
  }

  function Entries(vector: Vector, keys: seq<string>): seq<string>
    requires forall k :: k in keys ==> k in vector
  {
    seq(|keys|, i requires 0 <= i < |keys| => assert keys[i] in keys; Entry(vector, keys[i]))
  }

  function SvecText(sender: Callsign, vector: Vector, keys: seq<string>): Dict
    requires forall k :: k in keys ==> k in vector
  {
    map["from" := sender, "vec" := Join(Entries(vector, keys), ',')]
  }

  /** Reading the entries one by one into the vector; an entry without a colon is skipped. */
  function ReadEntries(entries: seq<string>, vector: Vector): Option<Vector> {
    if entries == [] then Some(vector)
    else
      var at := LastIndex(entries[0], ':');
      LastIndexRange(entries[0], ':');
      if at < 0 then ReadEntries(entries[1..], vector)
      else
        var n := Atoi(entries[0][at + 1..]);
        if n.None? then None
        else ReadEntries(entries[1..], vector[entries[0][..at] := n.value])
  }

  function SvecFromText(d: Dict): Option<(Callsign, Vector)> {
    var sender := Field(d, "from");
    var text := Field(d, "vec");
    if sender == "" then None
    else
      var vector := if text == "" then Some(map[]) else ReadEntries(Split(text, ','), map[]);
      if vector.None? then None else Some((sender, vector.value))
  }

  // ---- sorted keys ----

  /** Strictly earlier in the order of strings. */
  predicate Less(a: string, b: string) {
    if b == "" then false
    else if a == "" then true
    else if a[0] != b[0] then a[0] < b[0]
    else Less(a[1..], b[1..])
  }

  lemma {:induction false} LessIsStrict(a: string)
    ensures !Less(a, a)
  {
    if a != "" {
      LessIsStrict(a[1..]);
    }
  }

  lemma {:induction false} LessIsTotal(a: string, b: string)
    ensures a == b || Less(a, b) || Less(b, a)
    ensures !(Less(a, b) && Less(b, a))
  {
    if a != "" && b != "" {
      LessIsTotal(a[1..], b[1..]);
      assert a == [a[0]] + a[1..] && b == [b[0]] + b[1..];
    }
  }

  lemma {:induction false} LessIsTransitive(a: string, b: string, c: string)
    requires Less(a, b) && Less(b, c)
    ensures Less(a, c)
  {
    if a != "" && a[0] == b[0] == c[0] {
      LessIsTransitive(a[1..], b[1..], c[1..]);
    }
  }

  ghost predicate InOrder(keys: seq<string>) {
    forall i, j :: 0 <= i < j < |keys| ==> Less(keys[i], keys[j])
  }

  function InsertKey(keys: seq<string>, key: string): seq<string> {
    if keys == [] || Less(key, keys[0]) then [key] + keys else [keys[0]] + InsertKey(keys[1..], key)
  }

  lemma {:induction false} InsertKeyMembers(keys: seq<string>, key: string)
    ensures forall k :: k in InsertKey(keys, key) <==> k == key || k in keys
  {
    if keys != [] && !Less(key, keys[0]) {
      InsertKeyMembers(keys[1..], key);
      assert keys == [keys[0]] + keys[1..];
    }
  }

  lemma PrependInOrder(first: string, rest: seq<string>)
    requires InOrder(rest) && forall k :: k in rest ==> Less(first, k)
    ensures InOrder([first] + rest)
  {
    var all := [first] + rest;
    forall i, j | 0 <= i < j < |all|
      ensures Less(all[i], all[j])
    {
      assert all[j] == rest[j - 1] && all[j] in rest;
    }
  }

  lemma FirstIsLeast(keys: seq<string>, k: string)
    requires keys != [] && InOrder(keys) && k in keys[1..]
    ensures Less(keys[0], k)
  {
    var i :| 0 <= i < |keys[1..]| && keys[1..][i] == k;
    assert keys[i + 1] == k;
  }

  lemma {:induction false} InsertKeyInOrder(keys: seq<string>, key: string)
    requires InOrder(keys) && key !in keys
    ensures InOrder(InsertKey(keys, key))
  {
    if keys == [] {
    } else if Less(key, keys[0]) {
      forall k | k in keys
        ensures Less(key, k)
      {
        if k != keys[0] {
          FirstIsLeast(keys, k);
          LessIsTransitive(key, keys[0], k);
        }
      }
      PrependInOrder(key, keys);
    } else {
      InsertKeyInOrder(keys[1..], key);
      InsertKeyMembers(keys[1..], key);
      LessIsTotal(key, keys[0]);
      forall k | k in InsertKey(keys[1..], key)
        ensures Less(keys[0], k)
      {
        if k != key {
          FirstIsLeast(keys, k);
        }
      }
      PrependInOrder(keys[0], InsertKey(keys[1..], key));
    }
  }

  lemma InOrderNoRepeats(keys: seq<string>)
    requires InOrder(keys)
    ensures forall i, j :: 0 <= i < j < |keys| ==> keys[i] != keys[j]
  {
    forall i, j | 0 <= i < j < |keys|
      ensures keys[i] != keys[j]
    {
      LessIsStrict(keys[i]);
    }
  }

  /** sortedKeys: every key once, in order. */
  method SortedKeys(vector: Vector) returns (keys: seq<string>)
    ensures IsListing(keys, vector) && InOrder(keys)
  {
    keys := [];
    var todo := vector.Keys;
    while todo != {}
      invariant todo <= vector.Keys
      invariant forall k :: k in keys <==> k in vector && k !in todo
      invariant InOrder(keys)
      decreases |todo|
    {
      var key :| key in todo;
      InsertKeyMembers(keys, key);
      InsertKeyInOrder(keys, key);
      keys := InsertKey(keys, key);
      todo := todo - {key};
    }
    InOrderNoRepeats(keys);
  }

  lemma SameFirst(a: seq<string>, b: seq<string>)
    requires a != [] && b != [] && InOrder(a) && InOrder(b)
    requires forall k :: k in a <==> k in b
    ensures a[0] == b[0]
  {
    assert a[0] in b && b[0] in a;
    if a[0] != b[0] {
      FirstIsLeast(a, b[0]);
      FirstIsLeast(b, a[0]);
      LessIsTotal(a[0], b[0]);
    }
  }

  /** The sorted listing of a vector is unique, so its row is determined by the vector. */
  lemma {:induction false} SortedListingIsUnique(a: seq<string>, b: seq<string>)
    requires InOrder(a) && InOrder(b) && forall k :: k in a <==> k in b
    ensures a == b
  {
    if a == [] {
      assert forall i :: 0 <= i < |b| ==> b[i] in b;
    } else {
      assert a[0] in a && a[0] in b;
      SameFirst(a, b);
      RestAfterFirst(a);
      RestAfterFirst(b);
      SortedListingIsUnique(a[1..], b[1..]);
      assert a == [a[0]] + a[1..] && b == [b[0]] + b[1..];
    }
  }

  lemma RestAfterFirst(keys: seq<string>)
    requires keys != [] && InOrder(keys)
    ensures InOrder(keys[1..])
    ensures forall k :: k in keys[1..] <==> k in keys && k != keys[0]
  {
    forall k | k in keys[1..]
      ensures k != keys[0]
    {
      FirstIsLeast(keys, k);
      LessIsStrict(k);
    }
    assert keys == [keys[0]] + keys[1..];
  }

  /** SVEC ToDict: the sorted keys, written entry by entry. */
  method SvecToDict(sender: Callsign, vector: Vector) returns (d: Dict)
    requires IntValues(vector)
    ensures exists keys :: IsListing(keys, vector) && InOrder(keys) && d == SvecText(sender, vector, keys)
    ensures SvecFromText(d) == Some((sender, vector)) <==> sender != "" && CommaFree(vector)
  {
    var keys := SortedKeys(vector);
    var entries := [];
    for i := 0 to |keys|
      invariant entries == Entries(vector, keys)[..i]
    {
      assert keys[i] in keys;
      entries := entries + [Entry(vector, keys[i])];
    }
    assert entries == Entries(vector, keys) && |entries| == |keys|;
    d := map["from" := sender, "vec" := Join(entries, ',')];
    SvecRowUndoIff(sender, vector, keys);
  }

  /** SVECFromDict: the loop over the comma-separated entries. */
  method SvecFromDict(d: Dict) returns (r: Option<(Callsign, Vector)>)
    ensures r == SvecFromText(d)
  {
    var sender := Field(d, "from");
    if sender == "" {
      return None;
    }
    var vector: Vector := map[];
    var text := Field(d, "vec");
    if text != "" {
      var entries := Split(text, ',');
      for i := 0 to |entries|
        invariant ReadEntries(entries[i..], vector) == ReadEntries(entries, map[])
      {
        var entry := entries[i];
        assert entries[i..][0] == entry && entries[i..][1..] == entries[i + 1..];
        var lastColon := LastIndex(entry, ':');
        LastIndexRange(entry, ':');
        if ':' in entry {
          var seqNo := Atoi(entry[lastColon + 1..]);
          if seqNo.None? {
            return None;
          }
          vector := vector[entry[..lastColon] := seqNo.value];
        }
      }
    }
    return Some((sender, vector));
  }

  predicate CommaFree(vector: Vector) {
    forall k :: k in vector ==> ',' !in k
  }

  ghost predicate IntValues(vector: Vector) {
    forall k :: k in vector ==> IsInt(vector[k])
  }

  lemma EntryReads(vector: Vector, key: string)
    requires key in vector && IsInt(vector[key])
    ensures var e := Entry(vector, key);
            LastIndex(e, ':') == |key| && e[..|key|] == key && Atoi(e[|key| + 1..]) == Some(vector[key])
    ensures ',' !in key ==> ',' !in Entry(vector, key)
  {
    ItoaRoundTrip(vector[key]);
    LastIndexAt(key, ':', Itoa(vector[key]));
    var e := Entry(vector, key);
    assert e == key + [':'] + Itoa(vector[key]);
    assert e[|key| + 1..] == Itoa(vector[key]);
  }

  function Restrict(vector: Vector, keys: seq<string>): Vector {
    map k | k in keys && k in vector :: vector[k]
  }

  lemma OverlayStep(vector: Vector, keys: seq<string>, onto: Vector)
    requires keys != [] && keys[0] in vector
    ensures onto[keys[0] := vector[keys[0]]] + Restrict(vector, keys[1..]) == onto + Restrict(vector, keys)
  {
    assert forall k :: k in keys <==> k == keys[0] || k in keys[1..];
  }

  /** Reading on from the first written entry. */
  lemma ReadWrittenEntry(vector: Vector, keys: seq<string>, onto: Vector)
    requires keys != [] && (forall k :: k in keys ==> k in vector) && IsInt(vector[keys[0]])
    ensures ReadEntries(Entries(vector, keys), onto)
         == ReadEntries(Entries(vector, keys[1..]), onto[keys[0] := vector[keys[0]]])
  {
    var entries := Entries(vector, keys);
    assert entries[0] == Entry(vector, keys[0]) && entries[1..] == Entries(vector, keys[1..]);
    EntryReads(vector, keys[0]);
    LastIndexRange(entries[0], ':');
  }

  /** Reading the written entries restores the listed part of the vector. */
  lemma {:induction false} EntriesRead(vector: Vector, keys: seq<string>, onto: Vector)
    requires (forall k :: k in keys ==> k in vector) && IntValues(vector)
    ensures ReadEntries(Entries(vector, keys), onto) == Some(onto + Restrict(vector, keys))
  {
    if keys == [] {
      assert onto + Restrict(vector, keys) == onto;
    } else {
      var key := keys[0];
      assert key in keys;
      assert forall k :: k in keys <==> k == key || k in keys[1..];
      ReadWrittenEntry(vector, keys, onto);
      EntriesRead(vector, keys[1..], onto[key := vector[key]]);
      OverlayStep(vector, keys, onto);
    }
  }

  lemma EntryIsCommaFree(vector: Vector, key: string)
    requires key in vector && ',' !in key && IsInt(vector[key])
    ensures ',' !in Entry(vector, key) && ':' in Entry(vector, key)
  {
    EntryReads(vector, key);
    LastIndexRange(Entry(vector, key), ':');
  }

  lemma EntriesAreCommaFree(vector: Vector, keys: seq<string>)
    requires forall k :: k in keys ==> k in vector && ',' !in k && IsInt(vector[k])
    ensures |Entries(vector, keys)| == |keys|
    ensures forall e :: e in Entries(vector, keys) ==> ',' !in e && ':' in e
  {
    var entries := Entries(vector, keys);
    forall e | e in entries
      ensures ',' !in e && ':' in e
    {
      var i :| 0 <= i < |entries| && entries[i] == e;
      assert keys[i] in keys;
      EntryIsCommaFree(vector, keys[i]);
    }
  }

  /** Whatever is read from comma-separated text has comma-free keys. */
  lemma {:induction false} ReadKeysAreCommaFree(entries: seq<string>, onto: Vector)
    requires CommaFree(onto) && forall e :: e in entries ==> ',' !in e
    ensures ReadEntries(entries, onto).Some? ==> CommaFree(ReadEntries(entries, onto).value)
  {
    if entries != [] {
      assert entries[0] in entries;
      assert forall e :: e in entries[1..] ==> e in entries;
      var at := LastIndex(entries[0], ':');
      LastIndexRange(entries[0], ':');
      if at < 0 {
        ReadKeysAreCommaFree(entries[1..], onto);
      } else {
        var n := Atoi(entries[0][at + 1..]);
        if n.Some? {
          ReadKeysAreCommaFree(entries[1..], onto[entries[0][..at] := n.value]);
        }
      }
    }
  }

  /**
    * A queued SVEC row reads back as its vector, in whatever order the entries were written, exactly
    * when the sender is non-empty and no key contains a comma. Colons in keys do no harm.
    */
  lemma SvecRowUndoIff(sender: Callsign, vector: Vector, keys: seq<string>)
    requires IsListing(keys, vector) && IntValues(vector)
    ensures SvecFromText(SvecText(sender, vector, keys)) == Some((sender, vector))
       <==> sender != "" && CommaFree(vector)
  {
    var d := SvecText(sender, vector, keys);
    var entries := Entries(vector, keys);
    var text := Join(entries, ',');
    assert Field(d, "from") == sender && Field(d, "vec") == text;
    if CommaFree(vector) {
      EntriesAreCommaFree(vector, keys);
      EntriesRead(vector, keys, map[]);
      assert map[] + Restrict(vector, keys) == vector;
      if keys != [] {
        SplitJoin(entries, ',');
        assert entries[0] in entries;
        JoinNotEmpty(entries);
      }
    } else {
      SplitPieces(text, ',');
      ReadKeysAreCommaFree(Split(text, ','), map[]);
    }
  }

  lemma JoinNotEmpty(entries: seq<string>)
    requires entries != [] && entries[0] != ""
    ensures Join(entries, ',') != ""
  {
  }

  // ---- the messages table ----

  /** A row of the messages table, as text columns. */
  datatype MessageRow = MessageRow(
    id: string, from: Callsign, author: Option<string>, timestamp: string, channel: string,
    replyTo: Option<string>, body: string, seqNo: Option<int>)

  /** The columns handleMSG writes. */
  function ToRow(m: Msg, tt: TimeText): MessageRow {
    MessageRow(
      HexEncode(m.id), m.from, if m.author != "" then Some(m.author) else None, tt.format(m.time), m.channel,
      if m.replyTo.Some? then Some(HexEncode(m.replyTo.value)) else None, m.body, m.seqNo)
  }

  /** messageRowToFrame: a reply id that does not parse is dropped, a bad id or timestamp is an error. */
  function FromRow(r: MessageRow, tt: TimeText): Option<Msg> {
    var id := IdFromHex(r.id);
    var time := tt.parse(r.timestamp);
    if id.None? || time.None? then None
    else
      var reply := if r.replyTo.Some? then IdFromHex(r.replyTo.value) else None;
      Some(Msg(id.value, r.from, time.value, r.channel, reply, r.body, r.seqNo,
               if r.author.Some? then r.author.value else ""))
  }

  /** A stored message has each field in its own column, and is pushed again as the frame it came from. */
  lemma StoredMessageReadsBack(m: Msg, tt: TimeText)
    requires ReadsBack(tt, m.time)
    ensures FromRow(ToRow(m, tt), tt) == Some(m)
    ensures var row := ToRow(m, tt);
            && IdFromHex(row.id) == Some(m.id) && row.from == m.from && tt.parse(row.timestamp) == Some(m.time)
            && row.channel == m.channel && row.body == m.body && row.seqNo == m.seqNo
            && row.author == (if m.author == "" then None else Some(m.author))
            && (row.replyTo.None? <==> m.replyTo.None?) && (m.replyTo.Some? ==> IdFromHex(row.replyTo.value) == m.replyTo)
  {
    IdRoundTrip(m.id);
    if m.replyTo.Some? {
      IdRoundTrip(m.replyTo.value);
    }
  }
}
