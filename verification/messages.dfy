/**
 * The messages of the thread store: a flat table of rows numbered per thread from the largest number found, and the
 * append that delivers an external receipt once.
 */
module Messages {
  import opened PyText

  type ThreadId = string
  datatype Role = User | Assistant

  /** Of the metadata only the receipt key matters. */
  datatype Message = Message(thread: ThreadId, number: int, role: Role, content: string, receipt: Option<string>)
  datatype State = State(threads: set<ThreadId>, rows: seq<Message>)

  function Take(s: string, n: nat): (r: string)
    ensures r <= s && (|r| == n || (r == s && |s| <= n))
  {
    if |s| <= n then s else s[..n]
  }

  function Limit(role: Role): nat { if role == Assistant then 24000 else 8000 }

  /** `COALESCE(MAX(seq),0)` over the rows of one thread. */
  function MaxNumber(rows: seq<Message>, n: nat, t: ThreadId): int
    requires n <= |rows|
  {
    if n == 0 then 0
    else
      var m := MaxNumber(rows, n - 1, t);
      if rows[n - 1].thread == t && rows[n - 1].number > m then rows[n - 1].number else m
  }

  predicate Delivered(m: Message, t: ThreadId, key: string) {
    m.thread == t && m.role == Assistant && m.receipt == Some(key)
  }

  datatype Event =
    | Create(thread: ThreadId)
    | Import(thread: ThreadId, parts: seq<(Role, string)>)
    | AppendPair(thread: ThreadId, user: string, assistant: string, receipt: Option<string>)
    | AppendOnce(thread: ThreadId, assistant: string, key: string)
    | Delete(thread: ThreadId)

  /** The non-empty imported messages, shortened. */
  function Clean(parts: seq<(Role, string)>): seq<(Role, string)> {
    if parts == [] then []
    else
      var last := parts[|parts| - 1];
      Clean(parts[..|parts| - 1]) + (if last.1 == "" then [] else [(last.0, Take(last.1, Limit(last.0)))])
  }

  function Imported(t: ThreadId, clean: seq<(Role, string)>): seq<Message> {
    seq(|clean|, i requires 0 <= i < |clean| => Message(t, i + 1, clean[i].0, clean[i].1, None))
  }

  function Without(rows: seq<Message>, t: ThreadId): seq<Message> {
    if rows == [] then []
    else Without(rows[..|rows| - 1], t) + (if rows[|rows| - 1].thread == t then [] else [rows[|rows| - 1]])
  }

  function Pair(s: State, t: ThreadId, user: string, assistant: string, receipt: Option<string>): State {
    var n := MaxNumber(s.rows, |s.rows|, t);
    s.(rows := s.rows + [Message(t, n + 1, User, Take(user, 8000), None)]
                      + [Message(t, n + 2, Assistant, Take(assistant, 24000), receipt)])
  }

  function Step(s: State, e: Event): State {
    match e
    case Create(t) => if t in s.threads then s else s.(threads := s.threads + {t})
    case Import(t, parts) =>
      if t in s.threads || !(1 <= |parts| <= 16) || Clean(parts) == [] then s
      else State(s.threads + {t}, s.rows + Imported(t, Clean(parts)))
    case AppendPair(t, user, assistant, receipt) =>
      if t !in s.threads || user == "" || assistant == "" then s else Pair(s, t, user, assistant, receipt)
    case AppendOnce(t, assistant, key) =>
      if t !in s.threads || assistant == "" || key == "" || exists m | m in s.rows :: Delivered(m, t, Take(key, 200)) then s
      else s.(rows := s.rows + [Message(t, MaxNumber(s.rows, |s.rows|, t) + 1, Assistant, Take(assistant, 24000),
                                        Some(Take(key, 200)))])
    case Delete(t) => State(s.threads - {t}, Without(s.rows, t))
  }

  function Run(s: State, events: seq<Event>): State {
    if events == [] then s else Step(Run(s, events[..|events| - 1]), events[|events| - 1])
  }

  const EMPTY := State({}, [])

  class Table {
    var threads: set<ThreadId>
    var rows: seq<Message>

    constructor ()
      ensures View() == EMPTY
    {
      threads, rows := {}, [];
    }

    function View(): State
      reads this
    {
      State(threads, rows)
    }

    method CreateThread(t: ThreadId)
      modifies this
      ensures View() == Step(old(View()), Create(t))
    {
      if t !in threads { threads := threads + {t}; }
    }

    /** Deleting a thread deletes its messages with it. */
    method DeleteThread(t: ThreadId)
      modifies this
      ensures View() == Step(old(View()), Delete(t))
    {
      var kept: seq<Message> := [];
      for i := 0 to |rows|
        invariant View() == old(View()) && kept == Without(rows[..i], t)
      {
        assert rows[..i + 1][..i] == rows[..i];
        if rows[i].thread != t { kept := kept + [rows[i]]; } else { assert kept + [] == kept; }
      }
      assert rows[..|rows|] == rows;
      threads, rows := threads - {t}, kept;
    }

    method LastNumber(t: ThreadId) returns (n: int)
      ensures n == MaxNumber(rows, |rows|, t)
    {
      n := 0;
      for i := 0 to |rows|
        invariant n == MaxNumber(rows, i, t)
      {
        if rows[i].thread == t && rows[i].number > n { n := rows[i].number; }
      }
    }

    method AppendPair(t: ThreadId, user: string, assistant: string, receipt: Option<string>)
      modifies this
      ensures View() == Step(old(View()), Event.AppendPair(t, user, assistant, receipt))
    {
      if t !in threads || user == "" || assistant == "" { return; }
      var n := LastNumber(t);
      rows := rows + [Message(t, n + 1, User, Take(user, 8000), None)];
      rows := rows + [Message(t, n + 2, Assistant, Take(assistant, 24000), receipt)];
    }

    method AppendAssistantOnce(t: ThreadId, assistant: string, key: string) returns (inserted: bool)
      modifies this
      ensures View() == Step(old(View()), AppendOnce(t, assistant, key))
      ensures inserted <==> rows != old(rows)
    {
      inserted := false;
      if t !in threads || assistant == "" || key == "" { return; }
      for i := 0 to |rows|
        invariant View() == old(View())
        invariant forall m | m in rows[..i] :: !Delivered(m, t, Take(key, 200))
      {
        assert rows[..i + 1] == rows[..i] + [rows[i]];
        var m := rows[i];
        if m.thread == t && m.role == Assistant && m.receipt == Some(Take(key, 200)) {
          assert m in rows;
          return;
        }
      }
      assert rows[..|rows|] == rows;
      var n := LastNumber(t);
      rows := rows + [Message(t, n + 1, Assistant, Take(assistant, 24000), Some(Take(key, 200)))];
      inserted := true;
    }

    method ImportThread(t: ThreadId, parts: seq<(Role, string)>)
      modifies this
      ensures View() == Step(old(View()), Import(t, parts))
    {
      hide Clean;
      CleanNothing();
      assert parts[..0] == [];
      if t in threads || !(1 <= |parts| <= 16) { return; }
      var clean: seq<(Role, string)> := [];
      for i := 0 to |parts|
        invariant View() == old(View()) && clean == Clean(parts[..i])
      {
        CleanNext(parts, i);
        var content := if parts[i].0 == Assistant then Take(parts[i].1, 24000) else Take(parts[i].1, 8000);
        if content != "" { clean := clean + [(parts[i].0, content)]; }
      }
      assert parts[..|parts|] == parts;
      if clean == [] { return; }
      threads := threads + {t};
      ghost var before := rows;
      for i := 0 to |clean|
        invariant threads == old(threads) + {t} && rows == before + Imported(t, clean)[..i]
      {
        assert Imported(t, clean)[..i + 1] == Imported(t, clean)[..i] + [Imported(t, clean)[i]];
        rows := rows + [Message(t, i + 1, clean[i].0, clean[i].1, None)];
      }
      assert Imported(t, clean)[..|clean|] == Imported(t, clean);
    }
  }

  // --- what is imported ---

  lemma CleanNothing()
    ensures Clean([]) == []
  {
  }

  lemma CleanNext(parts: seq<(Role, string)>, i: nat)
    requires i < |parts|
    ensures Clean(parts[..i + 1]) == Clean(parts[..i]) + CleanOne(parts[i])
  {
    assert parts[..i + 1][..i] == parts[..i];
  }

  /** An imported part gives one message with its role and the start of its content, or none if it is empty. */
  ghost function CleanOne(part: (Role, string)): seq<(Role, string)> {
    if part.1 == "" then [] else [(part.0, if part.0 == Assistant then Take(part.1, 24000) else Take(part.1, 8000))]
  }

  // --- numbering ---

  function RowsOf(rows: seq<Message>, t: ThreadId): seq<Message> {
    if rows == [] then []
    else RowsOf(rows[..|rows| - 1], t) + (if rows[|rows| - 1].thread == t then [rows[|rows| - 1]] else [])
  }

  /** The messages of a thread, in the order they were added, are numbered 1, 2, 3, ... */
  ghost predicate Numbered(rows: seq<Message>, t: ThreadId) {
    forall i | 0 <= i < |RowsOf(rows, t)| :: RowsOf(rows, t)[i].number == i + 1
  }

  ghost predicate Owned(s: State) { forall m | m in s.rows :: m.thread in s.threads }

  ghost predicate Ordered(s: State) { Owned(s) && forall t :: Numbered(s.rows, t) }

  lemma RowsOfAppend(rows: seq<Message>, m: Message, t: ThreadId)
    ensures RowsOf(rows + [m], t) == if m.thread == t then RowsOf(rows, t) + [m] else RowsOf(rows, t)
  {
    assert (rows + [m])[..|rows|] == rows;
  }

  lemma {:induction false} MaxIsLength(rows: seq<Message>, n: nat, t: ThreadId)
    requires n <= |rows| && Numbered(rows[..n], t)
    ensures MaxNumber(rows, n, t) == |RowsOf(rows[..n], t)|
  {
    if n > 0 {
      assert rows[..n] == rows[..n - 1] + [rows[n - 1]];
      RowsOfAppend(rows[..n - 1], rows[n - 1], t);
      NumberedBefore(rows[..n - 1], rows[n - 1], t);
      MaxIsLength(rows, n - 1, t);
    }
  }

  lemma NumberedBefore(rows: seq<Message>, m: Message, t: ThreadId)
    requires Numbered(rows + [m], t)
    ensures Numbered(rows, t) && (m.thread == t ==> m.number == |RowsOf(rows, t)| + 1)
  {
    RowsOfAppend(rows, m, t);
    forall i | 0 <= i < |RowsOf(rows, t)| ensures RowsOf(rows, t)[i].number == i + 1 {
      assert RowsOf(rows + [m], t)[i] == RowsOf(rows, t)[i];
    }
    if m.thread == t { assert RowsOf(rows + [m], t)[|RowsOf(rows, t)|] == m; }
  }

  /** Appending with the next number keeps every thread numbered. */
  lemma AppendNumbered(rows: seq<Message>, m: Message)
    requires forall t :: Numbered(rows, t)
    requires m.number == |RowsOf(rows, m.thread)| + 1
    ensures forall t :: Numbered(rows + [m], t)
  {
    forall t ensures Numbered(rows + [m], t) {
      RowsOfAppend(rows, m, t);
      assert Numbered(rows, t);
    }
  }

  lemma NextNumber(rows: seq<Message>, t: ThreadId)
    requires forall t :: Numbered(rows, t)
    ensures MaxNumber(rows, |rows|, t) == |RowsOf(rows, t)|
  {
    assert rows[..|rows|] == rows;
    MaxIsLength(rows, |rows|, t);
  }

  lemma PairNumbered(s: State, t: ThreadId, user: string, assistant: string, receipt: Option<string>)
    requires Ordered(s) && t in s.threads
    ensures Ordered(Pair(s, t, user, assistant, receipt))
  {
    NextNumber(s.rows, t);
    var n := MaxNumber(s.rows, |s.rows|, t);
    var a, b := Message(t, n + 1, User, Take(user, 8000), None), Message(t, n + 2, Assistant, Take(assistant, 24000), receipt);
    AppendNumbered(s.rows, a);
    RowsOfAppend(s.rows, a, t);
    AppendNumbered(s.rows + [a], b);
  }

  lemma {:induction false} NoRows(rows: seq<Message>, t: ThreadId)
    requires forall m | m in rows :: m.thread != t
    ensures RowsOf(rows, t) == []
  {
    if rows != [] {
      assert rows[|rows| - 1] in rows;
      NoRows(rows[..|rows| - 1], t);
    }
  }

  lemma {:induction false} ImportNumbered(rows: seq<Message>, t: ThreadId, clean: seq<(Role, string)>, n: nat)
    requires n <= |clean| && (forall u :: Numbered(rows, u)) && forall m | m in rows :: m.thread != t
    ensures forall u :: Numbered(rows + Imported(t, clean)[..n], u)
    ensures |RowsOf(rows + Imported(t, clean)[..n], t)| == n
  {
    var all := Imported(t, clean);
    if n == 0 {
      assert rows + all[..0] == rows;
      NoRows(rows, t);
    } else {
      ImportNumbered(rows, t, clean, n - 1);
      assert rows + all[..n] == (rows + all[..n - 1]) + [all[n - 1]];
      AppendNumbered(rows + all[..n - 1], all[n - 1]);
      RowsOfAppend(rows + all[..n - 1], all[n - 1], t);
    }
  }

  lemma {:induction false} WithoutHolds(rows: seq<Message>, t: ThreadId)
    ensures forall m :: m in Without(rows, t) <==> m in rows && m.thread != t
  {
    if rows != [] {
      WithoutHolds(rows[..|rows| - 1], t);
      assert rows == rows[..|rows| - 1] + [rows[|rows| - 1]];
    }
  }

  lemma {:induction false} WithoutRows(rows: seq<Message>, t: ThreadId, u: ThreadId)
    ensures RowsOf(Without(rows, t), u) == if u == t then [] else RowsOf(rows, u)
  {
    hide RowsOf;
    assert RowsOf([], u) == [] by { NoRows([], u); }
    if rows != [] {
      var rest, last := rows[..|rows| - 1], rows[|rows| - 1];
      WithoutRows(rest, t, u);
      assert rows == rest + [last];
      RowsOfAppend(rest, last, u);
      if last.thread != t {
        RowsOfAppend(Without(rest, t), last, u);
      } else {
        assert Without(rest, t) + [] == Without(rest, t);
      }
    }
  }

  lemma StepOrdered(s: State, e: Event)
    requires Ordered(s)
    ensures Ordered(Step(s, e))
  {
    hide Numbered;
    match e
    case Create(t) =>
    case Import(t, parts) =>
      if t !in s.threads {
        var clean := Clean(parts);
        ImportNumbered(s.rows, t, clean, |clean|);
        assert Imported(t, clean)[..|clean|] == Imported(t, clean);
      }
    case AppendPair(t, user, assistant, receipt) =>
      if t in s.threads { PairNumbered(s, t, user, assistant, receipt); }
    case AppendOnce(t, assistant, key) =>
      NextNumber(s.rows, t);
      AppendNumbered(s.rows, Message(t, MaxNumber(s.rows, |s.rows|, t) + 1, Assistant, Take(assistant, 24000), Some(Take(key, 200))));
    case Delete(t) =>
      forall u ensures Numbered(Without(s.rows, t), u) { DeleteNumbered(s.rows, t, u); }
      WithoutHolds(s.rows, t);
  }

  lemma DeleteNumbered(rows: seq<Message>, t: ThreadId, u: ThreadId)
    requires Numbered(rows, u)
    ensures Numbered(Without(rows, t), u)
  {
    WithoutRows(rows, t, u);
  }

  /** In every store reached from an empty one, each thread's numbers are exactly 1..n. */
  lemma {:induction false} RunOrdered(events: seq<Event>)
    ensures Ordered(Run(EMPTY, events))
  {
    if events != [] {
      RunOrdered(events[..|events| - 1]);
      StepOrdered(Run(EMPTY, events[..|events| - 1]), events[|events| - 1]);
    }
  }

  // --- receipts ---

  /** No two assistant messages of a thread carry the same receipt key. */
  ghost predicate OncePerKey(rows: seq<Message>) {
    forall i, j | 0 <= i < j < |rows| && rows[i].role == Assistant && rows[j].role == Assistant
      && rows[i].thread == rows[j].thread && rows[i].receipt.Some? :: rows[i].receipt != rows[j].receipt
  }

  ghost predicate Has(rows: seq<Message>, t: ThreadId, key: string) { exists m | m in rows :: Delivered(m, t, key) }

  lemma AppendOncePerKey(rows: seq<Message>, m: Message)
    ensures OncePerKey(rows + [m]) <==>
      OncePerKey(rows) && !(m.role == Assistant && m.receipt.Some? && Has(rows, m.thread, m.receipt.value))
  {
    var all := rows + [m];
    assert forall i | 0 <= i < |rows| :: all[i] == rows[i] && rows[i] in rows;
    assert all[|rows|] == m;
    if m.role == Assistant && m.receipt.Some? {
      assert forall i | 0 <= i < |rows| ::
        Delivered(rows[i], m.thread, m.receipt.value) <==>
        rows[i].thread == m.thread && rows[i].role == Assistant && rows[i].receipt == m.receipt;
    }
  }

  /** An appended pair keeps receipts unique exactly when its metadata does not repeat a key of the thread. */
  lemma PairKeepsOnce(s: State, t: ThreadId, user: string, assistant: string, receipt: Option<string>)
    requires OncePerKey(s.rows)
    ensures OncePerKey(Pair(s, t, user, assistant, receipt).rows) <==> receipt.None? || !Has(s.rows, t, receipt.value)
  {
    var n := MaxNumber(s.rows, |s.rows|, t);
    var a, b := Message(t, n + 1, User, Take(user, 8000), None), Message(t, n + 2, Assistant, Take(assistant, 24000), receipt);
    AppendOncePerKey(s.rows, a);
    AppendOncePerKey(s.rows + [a], b);
    if receipt.Some? {
      assert Has(s.rows + [a], t, receipt.value) <==> Has(s.rows, t, receipt.value) by {
        assert forall m | Delivered(m, t, receipt.value) :: m in s.rows + [a] <==> m in s.rows;
      }
    }
  }

  lemma {:induction false} ImportOnce(rows: seq<Message>, t: ThreadId, clean: seq<(Role, string)>, n: nat)
    requires n <= |clean| && OncePerKey(rows)
    ensures OncePerKey(rows + Imported(t, clean)[..n])
  {
    var all := Imported(t, clean);
    if n == 0 {
      assert rows + all[..0] == rows;
    } else {
      ImportOnce(rows, t, clean, n - 1);
      assert rows + all[..n] == (rows + all[..n - 1]) + [all[n - 1]];
      AppendOncePerKey(rows + all[..n - 1], all[n - 1]);
    }
  }

  lemma {:induction false} DeleteOnce(rows: seq<Message>, t: ThreadId)
    requires OncePerKey(rows)
    ensures OncePerKey(Without(rows, t))
  {
    if rows != [] {
      var rest, last := rows[..|rows| - 1], rows[|rows| - 1];
      assert rows == rest + [last];
      AppendOncePerKey(rest, last);
      DeleteOnce(rest, t);
      if last.thread == t {
        assert Without(rest, t) + [] == Without(rest, t);
      } else {
        AppendOncePerKey(Without(rest, t), last);
        WithoutHolds(rest, t);
      }
    }
  }

  /** Pairs that carry a receipt key bring one the thread does not have. */
  ghost predicate Fair(s: State, e: Event) {
    e.AppendPair? && e.receipt.Some? ==> !Has(s.rows, e.thread, e.receipt.value)
  }

  lemma StepOnce(s: State, e: Event)
    requires OncePerKey(s.rows) && Fair(s, e)
    ensures OncePerKey(Step(s, e).rows)
  {
    hide OncePerKey, Delivered;
    match e
    case Create(t) =>
    case Import(t, parts) =>
      ImportOnce(s.rows, t, Clean(parts), |Clean(parts)|);
      assert Imported(t, Clean(parts))[..|Clean(parts)|] == Imported(t, Clean(parts));
    case AppendPair(t, user, assistant, receipt) => PairKeepsOnce(s, t, user, assistant, receipt);
    case AppendOnce(t, assistant, key) =>
      AppendOncePerKey(s.rows,
        Message(t, MaxNumber(s.rows, |s.rows|, t) + 1, Assistant, Take(assistant, 24000), Some(Take(key, 200))));
    case Delete(t) => DeleteOnce(s.rows, t);
  }

  ghost predicate AllFair(events: seq<Event>) {
    forall i | 0 <= i < |events| :: Fair(Run(EMPTY, events[..i]), events[i])
  }

  /** However often receipts are delivered, each key is carried at most once per thread. */
  lemma {:induction false} RunOnce(events: seq<Event>)
    requires AllFair(events)
    ensures OncePerKey(Run(EMPTY, events).rows)
  {
    if events != [] {
      var n := |events| - 1;
      var rest := events[..n];
      forall i | 0 <= i < n ensures Fair(Run(EMPTY, rest[..i]), rest[i]) {
        assert rest[..i] == events[..i];
        assert Fair(Run(EMPTY, events[..i]), events[i]);
      }
      RunOnce(rest);
      StepOnce(Run(EMPTY, rest), events[n]);
    }
  }

  /** After a delivery the receipt is there, and delivering it again changes nothing. */
  lemma DeliveredOnce(s: State, t: ThreadId, first: string, second: string, key: string)
    requires t in s.threads && first != "" && key != ""
    ensures var once := Step(s, AppendOnce(t, first, key));
      Has(once.rows, t, Take(key, 200)) && Step(once, AppendOnce(t, second, key)) == once
  {
    var once := Step(s, AppendOnce(t, first, key));
    if !Has(s.rows, t, Take(key, 200)) {
      assert once.rows[|s.rows|] in once.rows && Delivered(once.rows[|s.rows|], t, Take(key, 200));
    }
  }
}
