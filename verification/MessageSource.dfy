/**
 Reading chat rows from the page and giving every message an id that later polls
 give it again.
 */
module MessageSource {
  import opened JsonText

  const WINDOW := 50

  /** A row as the page shows it. */
  datatype DomRow = DomRow(sourceIndex: string, sender: string, text: string, isSelf: bool)

  /** A row as the script returns it. */
  datatype Row = Row(sourceIndex: string, sender: string, text: string, isSelf: bool, fallbackKey: string)

  datatype ChatMessage = ChatMessage(messageId: string, sender: string, text: string)

  /** The white space that the service strips; the page's own trimming differs in a few characters. */
  predicate IsSpace(c: char) {
    var n := c as int;
    9 <= n <= 13 || 28 <= n <= 32 || n == 133 || n == 160 || n == 5760 || 8192 <= n <= 8202
    || n == 8232 || n == 8233 || n == 8239 || n == 8287 || n == 12288
  }

  lemma SpacesAre(c: char)
    ensures IsSpace(c) <==> c as int in {
      9, 10, 11, 12, 13, 28, 29, 30, 31, 32, 133, 160, 5760,
      8192, 8193, 8194, 8195, 8196, 8197, 8198, 8199, 8200, 8201, 8202,
      8232, 8233, 8239, 8287, 12288}
  {
  }

  function TrimLeft(s: string): string {
    if s != [] && IsSpace(s[0]) then TrimLeft(s[1..]) else s
  }

  function TrimRight(s: string): string {
    if s != [] && IsSpace(s[|s| - 1]) then TrimRight(s[..|s| - 1]) else s
  }

  function Trim(s: string): string {
    TrimRight(TrimLeft(s))
  }

  /** What trimming takes away is white space, and none is left at either end. */
  lemma {:induction false} TrimLeftIs(s: string)
    ensures |TrimLeft(s)| <= |s| && s[|s| - |TrimLeft(s)|..] == TrimLeft(s)
    ensures forall i :: 0 <= i < |s| - |TrimLeft(s)| ==> IsSpace(s[i])
    ensures TrimLeft(s) == [] || !IsSpace(TrimLeft(s)[0])
  {
    if s != [] && IsSpace(s[0]) {
      TrimLeftIs(s[1..]);
      var k := |s| - |TrimLeft(s)|;
      assert s[1..][k - 1..] == s[k..];
      assert forall i :: 1 <= i < k ==> s[i] == s[1..][i - 1];
    }
  }

  lemma {:induction false} TrimRightIs(s: string)
    ensures TrimRight(s) <= s && forall i :: |TrimRight(s)| <= i < |s| ==> IsSpace(s[i])
    ensures TrimRight(s) == [] || !IsSpace(TrimRight(s)[|TrimRight(s)| - 1])
  {
    if s != [] && IsSpace(s[|s| - 1]) {
      TrimRightIs(s[..|s| - 1]);
    }
  }

  lemma ConcatAssoc(a: string, b: string, c: string)
    ensures a + (b + c) == a + b + c
  {
  }

  lemma {:induction false} TrimIs(s: string) returns (before: string, after: string)
    ensures s == before + Trim(s) + after
    ensures (forall c :: c in before ==> IsSpace(c)) && (forall c :: c in after ==> IsSpace(c))
    ensures Trim(s) == [] || (!IsSpace(Trim(s)[0]) && !IsSpace(Trim(s)[|Trim(s)| - 1]))
  {
    var rest := TrimLeft(s);
    TrimLeftIs(s);
    TrimRightIs(rest);
    before, after := s[..|s| - |rest|], rest[|Trim(s)|..];
    assert s == before + rest && rest == Trim(s) + after;
    ConcatAssoc(before, Trim(s), after);
  }

  // ---------- The script in the page ----------

  /** How many of the rows have this sender and this text. */
  function Count(rows: seq<DomRow>, sender: string, text: string): nat {
    if rows == [] then 0
    else
      var last := rows[|rows| - 1];
      Count(rows[..|rows| - 1], sender, text) + if last.sender == sender && last.text == text then 1 else 0
  }

  /** The rows of one sender and text are counted one by one. */
  lemma {:induction false} CountIs(a: seq<DomRow>, b: seq<DomRow>, row: DomRow, sender: string, text: string)
    ensures Count(a + b, sender, text) == Count(a, sender, text) + Count(b, sender, text)
    ensures Count([row], sender, text) == if row.sender == sender && row.text == text then 1 else 0
  {
    assert [row][..0] == [];
    if b == [] {
      assert a + b == a;
    } else {
      assert (a + b)[..|a + b| - 1] == a + b[..|b| - 1];
      CountIs(a, b[..|b| - 1], row, sender, text);
    }
  }

  /** The key of the i-th row of the page: its sender, its text, and which such row it is. */
  function FallbackKey(rows: seq<DomRow>, i: nat): (key: string)
    requires i < |rows|
    ensures key != []
  {
    TripleText(rows[i].sender, rows[i].text, Count(rows[..i + 1], rows[i].sender, rows[i].text))
  }

  function KeyedRow(rows: seq<DomRow>, i: nat): Row
    requires i < |rows|
  {
    Row(rows[i].sourceIndex, rows[i].sender, rows[i].text, rows[i].isSelf, FallbackKey(rows, i))
  }

  function WindowStart(size: nat): nat {
    if size > WINDOW then size - WINDOW else 0
  }

  function ScriptRows(rows: seq<DomRow>): seq<Row> {
    seq(|rows| - WindowStart(|rows|),
        i requires 0 <= i < |rows| - WindowStart(|rows|) => KeyedRow(rows, WindowStart(|rows|) + i))
  }

  /** The map holds, for every sender and text, the number of such rows among the first n. */
  ghost predicate Tallied(m: map<string, nat>, dom: seq<DomRow>, n: nat)
    requires n <= |dom|
  {
    forall s, t :: Occurrences(m, PairText(s, t)) == Count(dom[..n], s, t)
  }

  lemma TallyRow(m: map<string, nat>, dom: seq<DomRow>, n: nat)
    requires n < |dom| && Tallied(m, dom, n)
    ensures var base := PairText(dom[n].sender, dom[n].text);
      && Occurrences(m, base) + 1 == Count(dom[..n + 1], dom[n].sender, dom[n].text)
      && Tallied(m[base := Occurrences(m, base) + 1], dom, n + 1)
  {
    var row := dom[n];
    var base := PairText(row.sender, row.text);
    var more := m[base := Occurrences(m, base) + 1];
    assert dom[..n + 1][..n] == dom[..n];
    forall s, t ensures Occurrences(more, PairText(s, t)) == Count(dom[..n + 1], s, t) {
      assert Occurrences(m, PairText(s, t)) == Count(dom[..n], s, t);
      if PairText(s, t) == base {
        PairTextInjective(s, t, row.sender, row.text);
      }
    }
  }

  ghost predicate KeyedFirst(rows: seq<Row>, dom: seq<DomRow>, n: nat)
    requires n <= |dom|
  {
    |rows| == n && forall i :: 0 <= i < n ==> rows[i] == KeyedRow(dom, i)
  }

  lemma KeyedMore(rows: seq<Row>, dom: seq<DomRow>, n: nat, row: Row)
    requires n < |dom| && KeyedFirst(rows, dom, n) && row == KeyedRow(dom, n)
    ensures KeyedFirst(rows + [row], dom, n + 1)
  {
  }

  /** Numbers every row of the page with a map of counts, and returns the last fifty. */
  method ReadMessagesScript(dom: seq<DomRow>) returns (rows: seq<Row>)
    ensures rows == ScriptRows(dom)
    ensures LastFifty(rows, dom)
  {
    rows := [];
    var occurrences: map<string, nat> := map[];
    for n := 0 to |dom|
      invariant KeyedFirst(rows, dom, n)
      invariant Tallied(occurrences, dom, n)
    {
      var row := dom[n];
      var base := PairText(row.sender, row.text);
      var occurrence := (if base in occurrences then occurrences[base] else 0) + 1;
      TallyRow(occurrences, dom, n);
      occurrences := occurrences[base := occurrence];
      var keyed :=
        Row(row.sourceIndex, row.sender, row.text, row.isSelf, TripleText(row.sender, row.text, occurrence));
      KeyedMore(rows, dom, n, keyed);
      rows := rows + [keyed];
    }
    rows := rows[WindowStart(|dom|)..];
    ScriptRowsAre(dom);
  }

  /** The last fifty rows of the page, or all of a shorter one, each with its own fields and key. */
  ghost predicate LastFifty(rows: seq<Row>, dom: seq<DomRow>) {
    && |rows| == (if |dom| < 50 then |dom| else 50)
    && forall k :: 0 <= k < |rows| ==> IsFromEnd(rows, dom, k)
  }

  /** The k-th row stands as far from the end as the row of the page that it shows. */
  predicate IsFromEnd(rows: seq<Row>, dom: seq<DomRow>, k: nat)
    requires k < |rows|
  {
    var row, i := rows[k], |dom| - |rows| + k;
    && 0 <= i < |dom|
    && row.sourceIndex == dom[i].sourceIndex && row.sender == dom[i].sender && row.text == dom[i].text
    && row.isSelf == dom[i].isSelf
    && row.fallbackKey == TripleText(row.sender, row.text, Count(dom[..i + 1], row.sender, row.text))
  }

  lemma ScriptRowIs(dom: seq<DomRow>, k: nat)
    requires k < |ScriptRows(dom)|
    ensures IsFromEnd(ScriptRows(dom), dom, k)
  {
    assert ScriptRows(dom)[k] == KeyedRow(dom, WindowStart(|dom|) + k);
  }

  lemma ScriptRowsAre(dom: seq<DomRow>)
    ensures LastFifty(ScriptRows(dom), dom)
  {
    var rows := ScriptRows(dom);
    forall k | 0 <= k < |rows| ensures IsFromEnd(rows, dom, k) {
      ScriptRowIs(dom, k);
    }
  }

  function Occurrences(m: map<string, nat>, base: string): nat {
    if base in m then m[base] else 0
  }

  // ---------- Reading new messages ----------

  predicate Skipped(row: Row) {
    row.isSelf || Trim(row.text) == []
  }

  /** Rows without any key: neither from the platform nor from the script. */
  predicate Bare(row: Row) {
    !Skipped(row) && Trim(row.sourceIndex) == [] && row.fallbackKey == []
  }

  function BareCount(rows: seq<Row>, sender: string, text: string): nat {
    if rows == [] then 0
    else
      var last := rows[|rows| - 1];
      BareCount(rows[..|rows| - 1], sender, text)
      + if Bare(last) && Trim(last.sender) == sender && Trim(last.text) == text then 1 else 0
  }

  function MessageIdOf(group: string, rows: seq<Row>, i: nat): string
    requires i < |rows|
  {
    var row := rows[i];
    if Trim(row.sourceIndex) != [] then group + (":stable:" + Trim(row.sourceIndex))
    else
      var key := if row.fallbackKey != [] then row.fallbackKey
                 else TripleText(Trim(row.sender), Trim(row.text),
                                 BareCount(rows[..i + 1], Trim(row.sender), Trim(row.text)));
      group + (":fallback:" + key)
  }

  /** The messages of the first n rows. */
  function MessagesOf(group: string, rows: seq<Row>, n: nat): seq<ChatMessage>
    requires n <= |rows|
  {
    if n == 0 then []
    else
      var before, row := MessagesOf(group, rows, n - 1), rows[n - 1];
      if Skipped(row) then before
      else before + [ChatMessage(MessageIdOf(group, rows, n - 1), Trim(row.sender), Trim(row.text))]
  }

  /** The map holds, for every sender and text, the number of such bare rows among the first n. */
  ghost predicate BareTallied(m: map<string, nat>, rows: seq<Row>, n: nat)
    requires n <= |rows|
  {
    forall s, t :: Occurrences(m, PairText(s, t)) == BareCount(rows[..n], s, t)
  }

  lemma TallyOther(m: map<string, nat>, rows: seq<Row>, n: nat)
    requires n < |rows| && BareTallied(m, rows, n) && !Bare(rows[n])
    ensures BareTallied(m, rows, n + 1)
  {
    assert rows[..n + 1][..n] == rows[..n];
    forall s, t ensures Occurrences(m, PairText(s, t)) == BareCount(rows[..n + 1], s, t) {
      assert Occurrences(m, PairText(s, t)) == BareCount(rows[..n], s, t);
    }
  }

  lemma TallyBare(m: map<string, nat>, rows: seq<Row>, n: nat)
    requires n < |rows| && BareTallied(m, rows, n) && Bare(rows[n])
    ensures var sender, text := Trim(rows[n].sender), Trim(rows[n].text);
      var base := PairText(sender, text);
      && Occurrences(m, base) + 1 == BareCount(rows[..n + 1], sender, text)
      && BareTallied(m[base := Occurrences(m, base) + 1], rows, n + 1)
  {
    var sender, text := Trim(rows[n].sender), Trim(rows[n].text);
    var base := PairText(sender, text);
    var more := m[base := Occurrences(m, base) + 1];
    assert rows[..n + 1][..n] == rows[..n];
    forall s, t ensures Occurrences(more, PairText(s, t)) == BareCount(rows[..n + 1], s, t) {
      assert Occurrences(m, PairText(s, t)) == BareCount(rows[..n], s, t);
      if PairText(s, t) == base {
        PairTextInjective(s, t, sender, text);
      }
    }
  }

  /** The messages are those of the rows listed, which are all rows not skipped, in order. */
  ghost predicate ComeFrom(messages: seq<ChatMessage>, group: string, rows: seq<Row>, n: nat, from: seq<nat>)
    requires n <= |rows|
  {
    Unskipped(rows, n, from) && AreFrom(messages, group, rows, from)
  }

  ghost predicate Unskipped(rows: seq<Row>, n: nat, from: seq<nat>)
    requires n <= |rows|
  {
    && (forall k, m :: 0 <= k < m < |from| ==> from[k] < from[m])
    && (forall k :: 0 <= k < |from| ==> from[k] < n)
    && (forall i: nat :: i < n && !rows[i].isSelf && Trim(rows[i].text) != [] ==> i in from)
  }

  ghost predicate AreFrom(messages: seq<ChatMessage>, group: string, rows: seq<Row>, from: seq<nat>) {
    && |from| == |messages|
    && forall k :: 0 <= k < |from| ==> from[k] < |rows| && MessageFrom(messages[k], group, rows, from[k])
  }

  predicate MessageFrom(message: ChatMessage, group: string, rows: seq<Row>, i: nat)
    requires i < |rows|
  {
    && !rows[i].isSelf && message.text != []
    && message.sender == Trim(rows[i].sender) && message.text == Trim(rows[i].text)
    && message.messageId == MessageIdOf(group, rows, i)
    && var id := Trim(rows[i].sourceIndex);
       && (id != [] ==> message.messageId == group + (":stable:" + id))
       && (id == [] && rows[i].fallbackKey != [] ==> message.messageId == group + (":fallback:" + rows[i].fallbackKey))
       && (id == [] && rows[i].fallbackKey == [] ==>
            var nth := BareCount(rows[..i + 1], message.sender, message.text);
            message.messageId == group + (":fallback:" + TripleText(message.sender, message.text, nth)))
  }

  lemma {:induction false} MessagesFrom(group: string, rows: seq<Row>, n: nat) returns (from: seq<nat>)
    requires n <= |rows|
    ensures ComeFrom(MessagesOf(group, rows, n), group, rows, n, from)
  {
    from := [];
    if n > 0 {
      var m := n - 1;
      var before := MessagesFrom(group, rows, m);
      if Skipped(rows[m]) {
        NoneMoreFrom(MessagesOf(group, rows, m), group, rows, m, before);
        from := before;
      } else {
        var message := ChatMessage(MessageIdOf(group, rows, m), Trim(rows[m].sender), Trim(rows[m].text));
        MessageOf(group, rows, m);
        OneMoreFrom(MessagesOf(group, rows, m), message, group, rows, m, before);
        from := before + [m];
      }
    }
  }

  lemma NoneMoreFrom(messages: seq<ChatMessage>, group: string, rows: seq<Row>, n: nat, from: seq<nat>)
    requires n < |rows| && Skipped(rows[n]) && ComeFrom(messages, group, rows, n, from)
    ensures ComeFrom(messages, group, rows, n + 1, from)
  {
  }

  lemma OneMoreFrom(
    messages: seq<ChatMessage>, message: ChatMessage, group: string, rows: seq<Row>, n: nat, from: seq<nat>)
    requires n < |rows| && MessageFrom(message, group, rows, n) && ComeFrom(messages, group, rows, n, from)
    ensures ComeFrom(messages + [message], group, rows, n + 1, from + [n])
  {
    OneMoreRow(rows, n, from);
    OneMoreMessage(messages, message, group, rows, n, from);
  }

  lemma OneMoreRow(rows: seq<Row>, n: nat, from: seq<nat>)
    requires n < |rows| && Unskipped(rows, n, from)
    ensures Unskipped(rows, n + 1, from + [n])
  {
    var more := from + [n];
    assert forall i :: i in from ==> i in more;
    assert more[|from|] == n;
  }

  lemma OneMoreMessage(
    messages: seq<ChatMessage>, message: ChatMessage, group: string, rows: seq<Row>, n: nat, from: seq<nat>)
    requires n < |rows| && MessageFrom(message, group, rows, n) && AreFrom(messages, group, rows, from)
    ensures AreFrom(messages + [message], group, rows, from + [n])
  {
  }

  lemma MessageOf(group: string, rows: seq<Row>, n: nat)
    requires n < |rows| && !Skipped(rows[n])
    ensures var message := ChatMessage(MessageIdOf(group, rows, n), Trim(rows[n].sender), Trim(rows[n].text));
      MessageFrom(message, group, rows, n)
  {
  }

  /** Different platform ids make different message ids, and likewise different keys of the script. */
  lemma {:induction false} MessageIdsDiffer(group: string, rows: seq<Row>, i: nat, j: nat)
    requires i < |rows| && j < |rows|
    ensures Trim(rows[i].sourceIndex) != [] && Trim(rows[j].sourceIndex) != [] ==>
      (MessageIdOf(group, rows, i) == MessageIdOf(group, rows, j) <==>
        Trim(rows[i].sourceIndex) == Trim(rows[j].sourceIndex))
    ensures Trim(rows[i].sourceIndex) == Trim(rows[j].sourceIndex) == []
      && rows[i].fallbackKey != [] && rows[j].fallbackKey != []
      ==> (MessageIdOf(group, rows, i) == MessageIdOf(group, rows, j) <==> rows[i].fallbackKey == rows[j].fallbackKey)
    ensures Trim(rows[i].sourceIndex) != [] && Trim(rows[j].sourceIndex) == [] ==>
      MessageIdOf(group, rows, i) != MessageIdOf(group, rows, j)
  {
    var a, b := Trim(rows[i].sourceIndex), Trim(rows[j].sourceIndex);
    if MessageIdOf(group, rows, i) == MessageIdOf(group, rows, j) {
      if a != [] && b != [] {
        SameRest(group, ":stable:" + a, ":stable:" + b);
        SameRest(":stable:", a, b);
      } else if a == b == [] && rows[i].fallbackKey != [] && rows[j].fallbackKey != [] {
        SameRest(group, ":fallback:" + rows[i].fallbackKey, ":fallback:" + rows[j].fallbackKey);
        SameRest(":fallback:", rows[i].fallbackKey, rows[j].fallbackKey);
      } else if a != [] && b == [] {
        StableIsNot(group, rows, i, j);
      }
    }
  }

  lemma StableIsNot(group: string, rows: seq<Row>, i: nat, j: nat)
    requires i < |rows| && j < |rows| && Trim(rows[i].sourceIndex) != [] && Trim(rows[j].sourceIndex) == []
    ensures MessageIdOf(group, rows, i) != MessageIdOf(group, rows, j)
  {
    assert MessageIdOf(group, rows, i)[|group| + 1] == 's';
    assert MessageIdOf(group, rows, j)[|group| + 1] == 'f';
  }

  /** The bare rows of one sender and text are counted one by one. */
  lemma {:induction false} BareCountIs(a: seq<Row>, b: seq<Row>, row: Row, sender: string, text: string)
    ensures BareCount(a + b, sender, text) == BareCount(a, sender, text) + BareCount(b, sender, text)
    ensures BareCount([row], sender, text) ==
      if !row.isSelf && Trim(row.text) != [] && Trim(row.sourceIndex) == [] && row.fallbackKey == []
         && Trim(row.sender) == sender && Trim(row.text) == text
      then 1 else 0
  {
    assert [row][..0] == [];
    if b == [] {
      assert a + b == a;
    } else {
      assert (a + b)[..|a + b| - 1] == a + b[..|b| - 1];
      BareCountIs(a, b[..|b| - 1], row, sender, text);
    }
  }

  method ReadNew(group: string, rows: seq<Row>) returns (messages: seq<ChatMessage>)
    ensures messages == MessagesOf(group, rows, |rows|)
  {
    messages := [];
    var occurrences: map<string, nat> := map[];
    for n := 0 to |rows|
      invariant messages == MessagesOf(group, rows, n)
      invariant BareTallied(occurrences, rows, n)
    {
      var row := rows[n];
      if row.isSelf {
        TallyOther(occurrences, rows, n);
        continue;
      }
      var text := Trim(row.text);
      if text == [] {
        TallyOther(occurrences, rows, n);
        continue;
      }
      var sender := Trim(row.sender);
      var sourceIndex := Trim(row.sourceIndex);
      var messageId;
      if sourceIndex != [] {
        TallyOther(occurrences, rows, n);
        messageId := group + (":stable:" + sourceIndex);
      } else {
        var fallbackKey := row.fallbackKey;
        if fallbackKey == [] {
          TallyBare(occurrences, rows, n);
          var base := PairText(sender, text);
          var occurrence := (if base in occurrences then occurrences[base] else 0) + 1;
          occurrences := occurrences[base := occurrence];
          fallbackKey := TripleText(sender, text, occurrence);
        } else {
          TallyOther(occurrences, rows, n);
        }
        messageId := group + (":fallback:" + fallbackKey);
      }
      messages := messages + [ChatMessage(messageId, sender, text)];
    }
  }

  // ---------- Ids are stable and distinct ----------

  /** A row that gets an answer under a fallback id. */
  predicate Unnumbered(row: DomRow) {
    !row.isSelf && Trim(row.text) != [] && Trim(row.sourceIndex) == []
  }

  function RowId(group: string, page: seq<DomRow>, i: nat): string
    requires i < |page|
  {
    group + (":fallback:" + FallbackKey(page, i))
  }

  lemma {:induction false} CountGrows(rows: seq<DomRow>, i: nat, j: nat, sender: string, text: string)
    requires i <= j <= |rows|
    ensures Count(rows[..i], sender, text) <= Count(rows[..j], sender, text)
  {
    if i < j {
      CountGrows(rows, i, j - 1, sender, text);
      assert rows[..j][..j - 1] == rows[..j - 1];
    }
  }

  /** No two rows of a page have the same key. */
  lemma {:induction false} KeysDistinct(page: seq<DomRow>, i: nat, j: nat)
    requires i < j < |page|
    ensures FallbackKey(page, i) != FallbackKey(page, j)
  {
    var a, b := page[i], page[j];
    CountGrows(page, i + 1, j, b.sender, b.text);
    assert page[..j + 1][..j] == page[..j];
    if FallbackKey(page, i) == FallbackKey(page, j) {
      TripleTextInjective(a.sender, a.text, Count(page[..i + 1], a.sender, a.text),
                          b.sender, b.text, Count(page[..j + 1], b.sender, b.text));
    }
  }

  /** Rows appended later do not change a row's key. */
  lemma KeyStable(page: seq<DomRow>, later: seq<DomRow>, i: nat)
    requires i < |page| && page <= later
    ensures FallbackKey(later, i) == FallbackKey(page, i)
  {
    assert later[..i + 1] == page[..i + 1];
  }

  lemma SameRest(group: string, x: string, y: string)
    requires group + x == group + y
    ensures x == y
  {
    SameTail(group, x, y);
  }

  /** Different rows have different ids, in whatever state of the growing page each was read. */
  lemma {:induction false} RowIdsDistinct(group: string, page: seq<DomRow>, later: seq<DomRow>, i: nat, j: nat)
    requires i < |page| && j < |later| && page <= later && i != j
    ensures RowId(group, page, i) != RowId(group, later, j)
  {
    KeyStable(page, later, i);
    if RowId(group, page, i) == RowId(group, later, j) {
      SameRest(group, ":fallback:" + FallbackKey(page, i), ":fallback:" + FallbackKey(later, j));
      SameRest(":fallback:", FallbackKey(page, i), FallbackKey(later, j));
      KeysDistinct(later, if i < j then i else j, if i < j then j else i);
    }
  }

  /** A platform id never equals a fallback id. */
  lemma StableNotFallback(group: string, x: string, y: string)
    ensures group + (":stable:" + x) != group + (":fallback:" + y)
  {
    assert (group + (":stable:" + x))[|group| + 1] == 's';
    assert (group + (":fallback:" + y))[|group| + 1] == 'f';
  }

  function IdsOf(messages: seq<ChatMessage>): seq<string> {
    seq(|messages|, i requires 0 <= i < |messages| => messages[i].messageId)
  }

  /** The ids a poll of the page offers. */
  function Offered(group: string, page: seq<DomRow>): seq<string> {
    IdsOf(MessagesOf(group, ScriptRows(page), |ScriptRows(page)|))
  }

  lemma {:induction false} MessageIds(group: string, rows: seq<Row>, n: nat, id: string)
    requires n <= |rows|
    ensures id in IdsOf(MessagesOf(group, rows, n))
       <==> exists i :: 0 <= i < n && !Skipped(rows[i]) && MessageIdOf(group, rows, i) == id
  {
    if n > 0 {
      MessageIds(group, rows, n - 1, id);
      var before := MessagesOf(group, rows, n - 1);
      if !Skipped(rows[n - 1]) {
        var m := ChatMessage(MessageIdOf(group, rows, n - 1), Trim(rows[n - 1].sender), Trim(rows[n - 1].text));
        assert IdsOf(before + [m]) == IdsOf(before) + [m.messageId];
      }
    }
  }

  lemma ScriptIdIs(group: string, page: seq<DomRow>, j: nat)
    requires j < |ScriptRows(page)|
    ensures var i := WindowStart(|page|) + j;
      MessageIdOf(group, ScriptRows(page), j) ==
        if Trim(page[i].sourceIndex) != [] then group + (":stable:" + Trim(page[i].sourceIndex))
        else RowId(group, page, i)
  {
    assert ScriptRows(page)[j] == KeyedRow(page, WindowStart(|page|) + j);
  }

  lemma NotAnothers(group: string, page: seq<DomRow>, later: seq<DomRow>, m: nat, i: nat, id: string)
    requires page <= later && m < |page| && i < |later| && m != i
    requires Trim(page[m].sourceIndex) != [] ==> id == group + (":stable:" + Trim(page[m].sourceIndex))
    requires Trim(page[m].sourceIndex) == [] ==> id == RowId(group, page, m)
    ensures id != RowId(group, later, i)
  {
    if Trim(page[m].sourceIndex) != [] {
      StableNotFallback(group, Trim(page[m].sourceIndex), FallbackKey(later, i));
    } else {
      RowIdsDistinct(group, page, later, m, i);
    }
  }

  /** A row of the script's answer never takes the id of another row of the grown page. */
  lemma NotItsId(group: string, page: seq<DomRow>, later: seq<DomRow>, i: nat, j: nat)
    requires page <= later && i < |later| && j < |ScriptRows(page)| && WindowStart(|page|) + j != i
    ensures MessageIdOf(group, ScriptRows(page), j) != RowId(group, later, i)
  {
    ScriptIdIs(group, page, j);
    NotAnothers(group, page, later, WindowStart(|page|) + j, i, MessageIdOf(group, ScriptRows(page), j));
  }

  lemma OfferedInWindow(group: string, page: seq<DomRow>, i: nat)
    requires WindowStart(|page|) <= i < |page| && Unnumbered(page[i])
    ensures RowId(group, page, i) in Offered(group, page)
  {
    var rows, j := ScriptRows(page), i - WindowStart(|page|);
    assert rows[j] == KeyedRow(page, i);
    assert !Skipped(rows[j]) && MessageIdOf(group, rows, j) == RowId(group, page, i);
    MessageIds(group, rows, |rows|, RowId(group, page, i));
  }

  /** A poll offers a row without a platform id exactly when the row is in its window then. */
  lemma {:induction false} OfferedIffInWindow(group: string, page: seq<DomRow>, later: seq<DomRow>, i: nat)
    requires page <= later && i < |later| && Unnumbered(later[i])
    ensures RowId(group, later, i) in Offered(group, page) <==> |page| - 50 <= i < |page|
  {
    if WindowStart(|page|) <= i < |page| {
      KeyStable(page, later, i);
      OfferedInWindow(group, page, i);
    } else {
      var rows := ScriptRows(page);
      MessageIds(group, rows, |rows|, RowId(group, later, i));
      forall j | 0 <= j < |rows| ensures MessageIdOf(group, rows, j) != RowId(group, later, i) {
        NotItsId(group, page, later, i, j);
      }
    }
  }
}
