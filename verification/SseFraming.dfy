/**
 The incremental splitter that four game clients carry: text arrives in chunks,
 packets end at a blank line (section 9.2.5 of the WHATWG HTML Living Standard).
 */
module SseFraming {
  import opened Wrappers

  const BLANK := "\n\n"
  const DATA := "data: "
  const UNAVAILABLE := "event: unavailable"

  // ---------- Splitting at blank lines ----------

  predicate BlankAt(s: string, i: int) {
    0 <= i && i + 2 <= |s| && s[i] == '\n' && s[i + 1] == '\n'
  }

  /** The first position of a blank line, or -1. */
  function Boundary(s: string): (r: int)
    ensures r == -1 || BlankAt(s, r)
    ensures forall i :: BlankAt(s, i) ==> 0 <= r <= i
  {
    if |s| < 2 then -1
    else if BlankAt(s, 0) then 0
    else
      var r := Boundary(s[1..]);
      assert forall i :: BlankAt(s, i) ==> BlankAt(s[1..], i - 1);
      if r < 0 then -1 else r + 1
  }

  function Packets(s: string): seq<string>
    decreases |s|
  {
    var k := Boundary(s);
    if k < 0 then [] else [s[..k]] + Packets(s[k + 2..])
  }

  function Rest(s: string): string
    decreases |s|
  {
    var k := Boundary(s);
    if k < 0 then s else Rest(s[k + 2..])
  }

  function Concat(parts: seq<string>): string {
    if parts == [] then [] else Concat(parts[..|parts| - 1]) + parts[|parts| - 1]
  }

  /** Every packet followed by a blank line. */
  function Framed(packets: seq<string>): string {
    if packets == [] then [] else packets[0] + BLANK + Framed(packets[1..])
  }

  method IndexOfBlank(s: string) returns (r: int)
    ensures r == Boundary(s)
  {
    for i := 0 to |s|
      invariant forall j :: BlankAt(s, j) ==> j >= i
    {
      if i + 1 < |s| && s[i] == '\n' && s[i + 1] == '\n' {
        assert BlankAt(s, i);
        return i;
      }
    }
    return -1;
  }

  lemma SameText<T>(a: seq<T>, b: seq<T>, c: seq<T>)
    ensures (a + b) + c == a + (b + c)
  {
  }

  /** More text after a blank line does not move it. */
  lemma BoundaryKept(b: string, c: string)
    requires Boundary(b) >= 0
    ensures Boundary(b + c) == Boundary(b)
  {
    var k := Boundary(b);
    assert BlankAt(b + c, k);
    assert forall i :: i < k && BlankAt(b + c, i) ==> BlankAt(b, i);
  }

  /** Splitting a text is splitting its beginning, then what was left of it with the remainder. */
  lemma {:induction false} SplitAppend(b: string, c: string)
    ensures Packets(b + c) == Packets(b) + Packets(Rest(b) + c)
    ensures Rest(b + c) == Rest(Rest(b) + c)
    decreases |b|
  {
    var k := Boundary(b);
    if k >= 0 {
      var more := b[k + 2..];
      BoundaryKept(b, c);
      assert (b + c)[k + 2..] == more + c;
      assert (b + c)[..k] == b[..k];
      assert Packets(b + c) == [b[..k]] + Packets(more + c);
      SplitAppend(more, c);
      SameText([b[..k]], Packets(more), Packets(Rest(more) + c));
    }
  }

  lemma FramedHead(packet: string, more: seq<string>)
    ensures Framed([packet] + more) == packet + BLANK + Framed(more)
  {
    assert ([packet] + more)[1..] == more;
  }

  lemma CutAtBlank(s: string, k: nat)
    requires BlankAt(s, k)
    ensures s == s[..k] + BLANK + s[k + 2..]
  {
  }

  lemma Rejoined(head: string, a: string, b: string, more: string)
    requires a + b == more
    ensures (head + a) + b == head + more
  {
  }

  /** Nothing is lost: the packets and the rest make up the text. */
  lemma {:induction false} FramedBack(s: string)
    ensures Framed(Packets(s)) + Rest(s) == s
    decreases |s|
  {
    var k := Boundary(s);
    if k >= 0 {
      var more := s[k + 2..];
      FramedBack(more);
      FramedHead(s[..k], Packets(more));
      CutAtBlank(s, k);
      assert Packets(s) == [s[..k]] + Packets(more) && Rest(s) == Rest(more);
      Rejoined(s[..k] + BLANK, Framed(Packets(more)), Rest(more), more);
    }
  }

  // ---------- Which packets survive framing ----------

  predicate Clean(packet: string) {
    Boundary(packet) == -1 && (packet == [] || packet[|packet| - 1] != '\n')
  }

  /** Where a packet followed by a blank line has one before that line. */
  lemma BlankInside(packet: string, s: string, i: int)
    requires |packet| < |s| && s[..|packet|] == packet && s[|packet|] == '\n' && i < |packet|
    ensures BlankAt(s, i) <==> BlankAt(packet, i) || (i >= 0 && i == |packet| - 1 && packet[i] == '\n')
  {
    assert forall j :: 0 <= j < |packet| ==> s[j] == packet[j];
  }

  lemma CleanEndsAtBlank(packet: string, s: string)
    requires BlankAt(s, |packet|) && s[..|packet|] == packet
    ensures Clean(packet) <==> Boundary(s) == |packet|
  {
    forall i | i < |packet|
      ensures BlankAt(s, i) <==> BlankAt(packet, i) || (i >= 0 && i == |packet| - 1 && packet[i] == '\n')
    {
      BlankInside(packet, s, i);
    }
    if Boundary(s) == |packet| {
      assert !BlankAt(s, |packet| - 1);
      assert !BlankAt(s, Boundary(packet));
    }
  }

  /** Framing and splitting returns the packets exactly when none has a blank line or ends in a newline. */
  lemma {:induction false} FramingRoundTrip(packets: seq<string>)
    ensures (Packets(Framed(packets)) == packets && Rest(Framed(packets)) == [])
       <==> forall p :: p in packets ==> Clean(p)
  {
    if packets != [] {
      var p, more := packets[0], Framed(packets[1..]);
      var s := p + (BLANK + more);
      assert Framed(packets) == s;
      assert BlankAt(s, |p|) && s[..|p|] == p;
      CleanEndsAtBlank(p, s);
      assert packets == [p] + packets[1..];
      if Clean(p) {
        assert s[..|p|] == p && s[|p| + 2..] == more;
        FramingRoundTrip(packets[1..]);
      } else {
        assert BlankAt(s, |p|);
        assert Packets(s)[0] == s[..Boundary(s)];
        assert Packets(s)[0] != p;
        assert p in packets;
      }
    }
  }

  // ---------- What a packet says ----------

  predicate StartsWith(s: string, prefix: string) {
    |prefix| <= |s| && s[..|prefix|] == prefix
  }

  predicate Contains(s: string, part: string) {
    exists i :: 0 <= i <= |s| && StartsWith(s[i..], part)
  }

  /** The end of the line that starts at i. */
  function LineEnd(s: string, i: nat): (r: nat)
    requires i <= |s|
    ensures i <= r <= |s| && (r < |s| ==> s[r] == '\n') && forall k :: i <= k < r ==> s[k] != '\n'
    decreases |s| - i
  {
    if i == |s| || s[i] == '\n' then i else LineEnd(s, i + 1)
  }

  /** The text of the first data line at or after position i. */
  function DataFrom(s: string, i: nat): Option<string>
    requires i <= |s|
    decreases |s| - i
  {
    var line := s[i..LineEnd(s, i)];
    if StartsWith(line, DATA) then Some(line[|DATA|..])
    else if LineEnd(s, i) == |s| then None
    else DataFrom(s, LineEnd(s, i) + 1)
  }

  /** A text contains another exactly when it is that one with something before and something after. */
  lemma {:induction false} ContainsIff(s: string, part: string)
    ensures Contains(s, part) <==> exists a: string, b: string :: s == a + (part + b)
  {
    if Contains(s, part) {
      var i :| 0 <= i <= |s| && StartsWith(s[i..], part);
      assert s == s[..i] + (part + s[i..][|part|..]);
    }
    if exists a: string, b: string :: s == a + (part + b) {
      var a: string, b: string :| s == a + (part + b);
      assert s[|a|..] == part + b && StartsWith(s[|a|..], part);
    }
  }

  /** A line that starts here says data. */
  predicate DataAt(s: string, k: nat) {
    (k == 0 || (k <= |s| && s[k - 1] == '\n')) && k + 6 <= |s| && s[k..k + 6] == "data: "
  }

  /** The text from k on up to the end of its line. */
  predicate ToLineEnd(s: string, k: nat, text: string) {
    && k + |text| <= |s| && s[k..k + |text|] == text && '\n' !in text
    && (k + |text| == |s| || s[k + |text|] == '\n')
  }

  /** No line that starts at or after i and before j says data. */
  ghost predicate NoData(s: string, i: nat, j: nat) {
    forall m: nat :: i <= m < j ==> !DataAt(s, m)
  }

  /** The data is the rest of the first data line from i on, which starts at k; without one k is past the end. */
  ghost predicate IsData(s: string, i: nat, k: nat, data: Option<string>) {
    && i <= k && NoData(s, i, k)
    && if data.None? then k == |s| + 1 else DataAt(s, k) && ToLineEnd(s, k + 6, data.value)
  }

  /** A packet's update is the rest of its first data line; a packet without one, such as a heartbeat, has none. */
  lemma {:induction false} DataFromIs(s: string, i: nat) returns (k: nat)
    requires i <= |s| && (i == 0 || s[i - 1] == '\n')
    ensures IsData(s, i, k, DataFrom(s, i))
    decreases |s| - i
  {
    if DataAt(s, i) {
      DataHere(s, i);
      k := i;
    } else {
      var next := NoDataHere(s, i);
      if next > |s| {
        k := next;
      } else {
        k := DataFromIs(s, next);
        LaterLine(s, i, next, k, DataFrom(s, next));
      }
    }
  }

  lemma LaterLine(s: string, i: nat, j: nat, k: nat, data: Option<string>)
    requires i <= j && NoData(s, i, j) && IsData(s, j, k, data)
    ensures IsData(s, i, k, data)
  {
  }

  lemma DataHere(s: string, i: nat)
    requires i <= |s| && (i == 0 || s[i - 1] == '\n') && DataAt(s, i)
    ensures DataFrom(s, i).Some? && IsData(s, i, i, DataFrom(s, i))
  {
    DataLine(s, i);
    var end := LineEnd(s, i);
    assert DataFrom(s, i) == Some(s[i..end][6..]);
    assert s[i..end][6..] == s[i + 6..end];
  }

  lemma NoDataHere(s: string, i: nat) returns (next: nat)
    requires i <= |s| && (i == 0 || s[i - 1] == '\n') && !DataAt(s, i)
    ensures i < next <= |s| + 1 && NoData(s, i, next)
    ensures if next > |s| then IsData(s, i, next, DataFrom(s, i))
            else s[next - 1] == '\n' && DataFrom(s, i) == DataFrom(s, next)
  {
    DataLine(s, i);
    next := LineEnd(s, i) + 1;
  }

  lemma DataLine(s: string, i: nat)
    requires i <= |s| && (i == 0 || s[i - 1] == '\n')
    ensures StartsWith(s[i..LineEnd(s, i)], DATA) <==> DataAt(s, i)
  {
    var line := s[i..LineEnd(s, i)];
    if StartsWith(line, DATA) {
      assert s[i..i + 6] == line[..6];
    }
    if DataAt(s, i) {
      assert forall k :: i <= k < i + 6 ==> s[k] == s[i..i + 6][k - i];
      assert LineEnd(s, i) >= i + 6;
      assert line[..6] == s[i..i + 6];
    }
  }

  datatype Heard = Heard(updates: seq<string>, unavailable: bool)

  /** What a client takes from a list of packets: it stops at the first that says unavailable. */
  function Hear(packets: seq<string>): Heard {
    if packets == [] then Heard([], false)
    else
      var before, p := Hear(packets[..|packets| - 1]), packets[|packets| - 1];
      HearOne(before, p)
  }

  function HearOne(before: Heard, packet: string): Heard {
    if before.unavailable then before
    else if Contains(packet, UNAVAILABLE) then Heard(before.updates, true)
    else match DataFrom(packet, 0)
      case None => before
      case Some(data) => Heard(before.updates + [data], false)
  }

  /** The server's heartbeat is no update and does not stop a client. */
  lemma HeartbeatSilent(before: Heard)
    ensures HearOne(before, ": heartbeat") == before
  {
    var beat := ": heartbeat";
    assert forall i :: 0 <= i <= |beat| ==> |beat[i..]| < |UNAVAILABLE|;
    forall k: nat ensures !DataAt(beat, k) {
      assert k == 0 && |beat| >= 6 ==> beat[0..6][0] == ':';
    }
    var _ := DataFromIs(beat, 0);
  }

  lemma HearSnoc(taken: seq<string>, packet: string)
    ensures Hear(taken + [packet]) == HearOne(Hear(taken), packet)
  {
    assert (taken + [packet])[..|taken|] == taken;
  }

  lemma {:induction false} HearStops(a: seq<string>, b: seq<string>)
    requires Hear(a).unavailable
    ensures Hear(a + b) == Hear(a)
  {
    if b == [] {
      assert a + b == a;
    } else {
      assert (a + b)[..|a + b| - 1] == a + b[..|b| - 1];
      HearStops(a, b[..|b| - 1]);
    }
  }

  /** One chunk: splits off every complete packet, handing on its data, until one says unavailable. */
  method TakePackets(text: string, ghost taken: seq<string>, heard: Heard) returns (buffer: string, heard': Heard)
    requires heard == Hear(taken) && !heard.unavailable
    ensures heard' == Hear(taken + Packets(text))
    ensures !heard'.unavailable ==> buffer == Rest(text)
  {
    buffer, heard' := text, heard;
    ghost var done := taken;
    var split := IndexOfBlank(buffer);
    while split >= 0
      invariant split == Boundary(buffer)
      invariant heard' == Hear(done) && !heard'.unavailable
      invariant done + Packets(buffer) == taken + Packets(text) && Rest(buffer) == Rest(text)
      decreases |buffer|
    {
      var packet := buffer[..split];
      assert Packets(buffer) == [packet] + Packets(buffer[split + 2..]);
      assert done + Packets(buffer) == (done + [packet]) + Packets(buffer[split + 2..]);
      buffer := buffer[split + 2..];
      HearSnoc(done, packet);
      done := done + [packet];
      if Contains(packet, UNAVAILABLE) {
        heard' := Heard(heard'.updates, true);
        HearStops(done, Packets(buffer));
        return;
      }
      var line := DataFrom(packet, 0);
      if line.Some? {
        heard' := Heard(heard'.updates + [line.value], false);
      }
      split := IndexOfBlank(buffer);
    }
    assert done + [] == done;
  }

  /**
   The read loop of a connection. Whatever the chunks, the client hears what it
   would have heard from the whole stream at once, and is left with the same rest.
   */
  method Follow(chunks: seq<string>) returns (heard: Heard, buffer: string)
    ensures heard == Hear(Packets(Concat(chunks)))
    ensures !heard.unavailable ==> buffer == Rest(Concat(chunks))
  {
    heard, buffer := Heard([], false), [];
    for n := 0 to |chunks|
      invariant heard == Hear(Packets(Concat(chunks[..n]))) && !heard.unavailable
      invariant buffer == Rest(Concat(chunks[..n]))
    {
      assert chunks[..n + 1][..n] == chunks[..n];
      ghost var before := Concat(chunks[..n]);
      SplitAppend(before, chunks[n]);
      buffer, heard := TakePackets(buffer + chunks[n], Packets(before), heard);
      if heard.unavailable {
        StreamLonger(chunks, n + 1);
        return;
      }
    }
    assert chunks[..|chunks|] == chunks;
  }

  /** Once a packet has said unavailable, the rest of the stream is not heard. */
  lemma {:induction false} StreamLonger(chunks: seq<string>, n: nat)
    requires n <= |chunks| && Hear(Packets(Concat(chunks[..n]))).unavailable
    ensures Hear(Packets(Concat(chunks))) == Hear(Packets(Concat(chunks[..n])))
  {
    if n == |chunks| {
      assert chunks[..n] == chunks;
    } else {
      var front := chunks[..|chunks| - 1];
      assert front[..n] == chunks[..n];
      StreamLonger(front, n);
      SplitAppend(Concat(front), chunks[|chunks| - 1]);
      HearStops(Packets(Concat(front)), Packets(Rest(Concat(front)) + chunks[|chunks| - 1]));
    }
  }

  // ---------- From the server's updates to the client ----------

  const UPDATE := "event: update\ndata: "

  function UpdatePacket(json: string): string {
    UPDATE + json
  }

  function UpdatePackets(jsons: seq<string>): seq<string> {
    seq(|jsons|, i requires 0 <= i < |jsons| => UpdatePacket(jsons[i]))
  }

  predicate OneLine(s: string) {
    '\n' !in s
  }

  lemma UpdateData(json: string)
    requires OneLine(json)
    ensures Clean(UpdatePacket(json)) && DataFrom(UpdatePacket(json), 0) == Some(json)
  {
    var p := UpdatePacket(json);
    assert forall i :: 0 <= i < 20 ==> p[i] == UPDATE[i];
    assert forall i :: 20 <= i < |p| ==> p[i] == json[i - 20];
    assert p[13] == '\n' && forall i :: 0 <= i < |p| && i != 13 ==> p[i] != '\n';
    assert LineEnd(p, 0) == 13;
    assert p[0..13][0] == 'e';
    assert LineEnd(p, 14) == |p|;
    assert p[14..|p|] == DATA + json;
    assert (DATA + json)[..|DATA|] == DATA && (DATA + json)[|DATA|..] == json;
  }

  /**
   Updates without line breaks, framed by the server and cut anywhere on the way,
   all arrive, in order, exactly when none of their packets contains the text that
   announces an unavailable room.
   */
  lemma {:induction false} UpdatesArrive(jsons: seq<string>, chunks: seq<string>)
    requires (forall j :: j in jsons ==> OneLine(j)) && Concat(chunks) == Framed(UpdatePackets(jsons))
    ensures Hear(Packets(Concat(chunks))) == Heard(jsons, false)
       <==> forall j :: j in jsons ==> !Contains(UpdatePacket(j), UNAVAILABLE)
  {
    forall p | p in UpdatePackets(jsons) ensures Clean(p) {
      var i :| 0 <= i < |jsons| && p == UpdatePacket(jsons[i]);
      UpdateData(jsons[i]);
    }
    FramingRoundTrip(UpdatePackets(jsons));
    HearUpdates(jsons);
  }

  lemma {:induction false} HearUpdates(jsons: seq<string>)
    requires forall j :: j in jsons ==> OneLine(j)
    ensures Hear(UpdatePackets(jsons)) == Heard(jsons, false)
       <==> forall j :: j in jsons ==> !Contains(UpdatePacket(j), UNAVAILABLE)
    ensures !Hear(UpdatePackets(jsons)).unavailable
       <==> forall j :: j in jsons ==> !Contains(UpdatePacket(j), UNAVAILABLE)
  {
    if jsons != [] {
      var front, last := jsons[..|jsons| - 1], jsons[|jsons| - 1];
      HearUpdates(front);
      assert UpdatePackets(jsons) == UpdatePackets(front) + [UpdatePacket(last)];
      assert jsons == front + [last];
      HearSnoc(UpdatePackets(front), UpdatePacket(last));
      UpdateData(last);
    }
  }

  lemma ContainsMiddle(before: string, part: string, after: string)
    ensures Contains(before + (part + after), part)
  {
    assert (before + (part + after))[|before|..] == part + after;
    assert StartsWith((before + (part + after))[|before|..], part);
  }

  /** An update that holds the text stops the client, whatever stands around it and comes before or after. */
  lemma TextStopsClient(before: string, after: string, jsons: seq<string>, chunks: seq<string>)
    requires before + (UNAVAILABLE + after) in jsons && forall j :: j in jsons ==> OneLine(j)
    requires Concat(chunks) == Framed(UpdatePackets(jsons))
    ensures Hear(Packets(Concat(chunks))) != Heard(jsons, false)
  {
    SameText(UPDATE, before, UNAVAILABLE + after);
    ContainsMiddle(UPDATE + before, UNAVAILABLE, after);
    UpdatesArrive(jsons, chunks);
  }

  const CHAT_START := "{\"text\": \""
  const CHAT_END := "\"}"

  /** Such a text needs no escape in JSON: here a chat message that consists of it. */
  lemma ChatTextStopsClient(chunks: seq<string>)
    requires Concat(chunks) == Framed(UpdatePackets([CHAT_START + (UNAVAILABLE + CHAT_END)]))
    ensures OneLine(CHAT_START + (UNAVAILABLE + CHAT_END))
    ensures Hear(Packets(Concat(chunks))) != Heard([CHAT_START + (UNAVAILABLE + CHAT_END)], false)
  {
    assert OneLine(CHAT_START) && OneLine(UNAVAILABLE) && OneLine(CHAT_END);
    var json := CHAT_START + (UNAVAILABLE + CHAT_END);
    OneLineJoined(UNAVAILABLE, CHAT_END);
    OneLineJoined(CHAT_START, UNAVAILABLE + CHAT_END);
    assert json in [json];
    TextStopsClient(CHAT_START, CHAT_END, [json], chunks);
  }

  lemma OneLineJoined(a: string, b: string)
    requires OneLine(a) && OneLine(b)
    ensures OneLine(a + b)
  {
  }

  // ---------- The client that normalises line ends per chunk ----------

  function Normalized(s: string): string {
    if s == [] then []
    else if |s| >= 2 && s[0] == '\r' && s[1] == '\n' then ['\n'] + Normalized(s[2..])
    else [s[0]] + Normalized(s[1..])
  }

  /** A cut between a carriage return and its line feed. */
  predicate CutsLineEnd(a: string, b: string) {
    a != [] && b != [] && a[|a| - 1] == '\r' && b[0] == '\n'
  }

  lemma NormalizedPair(rest: string)
    ensures Normalized(['\r', '\n'] + rest) == ['\n'] + Normalized(rest)
  {
    assert (['\r', '\n'] + rest)[2..] == rest;
  }

  lemma NormalizedChar(c: char, rest: string)
    requires !CutsLineEnd([c], rest)
    ensures Normalized([c] + rest) == [c] + Normalized(rest)
  {
    assert ([c] + rest)[1..] == rest;
  }

  /** Normalising the two sides of a cut separately leaves one character too many exactly at such a cut. */
  ghost predicate NormalizedAcross(a: string, b: string) {
    if CutsLineEnd(a, b) then |Normalized(a)| + |Normalized(b)| == |Normalized(a + b)| + 1
    else Normalized(a) + Normalized(b) == Normalized(a + b)
  }

  lemma AcrossAfterHead(head: string, mine: string, more: string, b: string)
    requires Normalized(head + more) == mine + Normalized(more)
    requires Normalized(head + (more + b)) == mine + Normalized(more + b)
    requires CutsLineEnd(head + more, b) == CutsLineEnd(more, b) && NormalizedAcross(more, b)
    ensures NormalizedAcross(head + more, b)
  {
    SameText(head, more, b);
    SameText(mine, Normalized(more), Normalized(b));
  }

  lemma AcrossLineEnd(b: string)
    requires b != [] && b[0] == '\n'
    ensures NormalizedAcross(['\r'], b)
  {
    var more := b[1..];
    NormalizedChar('\r', []);
    NormalizedChar('\n', more);
    NormalizedPair(more);
    assert ['\r'] == ['\r'] + [] && b == ['\n'] + more && ['\r'] + b == ['\r', '\n'] + more;
  }

  lemma {:induction false} NormalizedAppend(a: string, b: string)
    ensures NormalizedAcross(a, b)
    decreases |a|
  {
    if a == [] {
      assert a + b == b;
    } else if |a| >= 2 && a[0] == '\r' && a[1] == '\n' {
      NormalizedAppend(a[2..], b);
      NormalizedPair(a[2..]);
      NormalizedPair(a[2..] + b);
      assert a == ['\r', '\n'] + a[2..];
      AcrossAfterHead(['\r', '\n'], ['\n'], a[2..], b);
    } else if |a| == 1 && CutsLineEnd(a, b) {
      assert a == ['\r'];
      AcrossLineEnd(b);
    } else {
      NormalizedAppend(a[1..], b);
      NormalizedChar(a[0], a[1..]);
      NormalizedChar(a[0], a[1..] + b);
      assert a == [a[0]] + a[1..];
      AcrossAfterHead([a[0]], [a[0]], a[1..], b);
    }
  }

  /** How many of the cuts fall inside a line end. */
  function BadCuts(chunks: seq<string>): nat {
    if chunks == [] then 0
    else
      var front := chunks[..|chunks| - 1];
      BadCuts(front) + if CutsLineEnd(Concat(front), chunks[|chunks| - 1]) then 1 else 0
  }

  function NormalizedChunks(chunks: seq<string>): seq<string> {
    seq(|chunks|, i requires 0 <= i < |chunks| => Normalized(chunks[i]))
  }

  lemma {:induction false} NormalizedLength(chunks: seq<string>)
    ensures |Concat(NormalizedChunks(chunks))| == |Normalized(Concat(chunks))| + BadCuts(chunks)
    ensures BadCuts(chunks) == 0 ==> Concat(NormalizedChunks(chunks)) == Normalized(Concat(chunks))
  {
    if chunks != [] {
      var front, last := chunks[..|chunks| - 1], chunks[|chunks| - 1];
      NormalizedLength(front);
      assert NormalizedChunks(chunks)[..|chunks| - 1] == NormalizedChunks(front);
      NormalizedAppend(Concat(front), last);
    }
  }

  /**
   The client that normalises each chunk gets the packets and the rest of the
   normalised stream exactly when no cut falls between CR and LF.
   */
  lemma {:induction false} NormalizingIsChunkIndependent(chunks: seq<string>)
    ensures var mine, whole := Concat(NormalizedChunks(chunks)), Normalized(Concat(chunks));
      (Packets(mine) == Packets(whole) && Rest(mine) == Rest(whole)) <==> BadCuts(chunks) == 0
  {
    NormalizedLength(chunks);
    FramedBack(Concat(NormalizedChunks(chunks)));
    FramedBack(Normalized(Concat(chunks)));
  }

  /** One line end, cut in two, leaves the carriage return behind. */
  lemma CutLineEndStays()
    ensures BadCuts(["\r"] + ["\n"]) == 1
    ensures Rest(Concat(NormalizedChunks(["\r"] + ["\n"]))) == "\r\n"
    ensures Rest(Normalized(Concat(["\r"] + ["\n"]))) == "\n"
  {
    var chunks := ["\r"] + ["\n"];
    assert chunks[..1] == ["\r"] && ["\r"][..0] == [];
    assert Concat(["\r"]) == [] + "\r" == "\r";
    assert Concat(chunks) == "\r" + "\n" == ['\r', '\n'] + [];
    NormalizedPair([]);
    NormalizedChar('\r', []);
    NormalizedChar('\n', []);
    assert "\r" == ['\r'] + [] && "\n" == ['\n'] + [];
    var mine := NormalizedChunks(chunks);
    assert mine == ["\r"] + ["\n"] == chunks;
  }
}
