/** What the value of a key with continuation lines is, character by character. */
module LpclValues {
  import opened PyText
  import opened Regex
  import opened Lpcl

  /** Where the k-th row starts when rows are set one after the other with one character between them. */
  ghost function Offset(notes: seq<string>, k: nat): nat
    requires k <= |notes|
  {
    if k == 0 then 0 else Offset(notes, k - 1) + |notes[k - 1]| + 1
  }

  /** The rows stand in the value in their order, with a single space before every row after the first. */
  ghost predicate Spaced(v: string, notes: seq<string>) {
    && |v| == (if notes == [] then 0 else Offset(notes, |notes|) - 1)
    && forall k | 0 <= k < |notes| :: StandsAt(v, notes, k)
  }

  ghost predicate StandsAt(v: string, notes: seq<string>, k: nat)
    requires k < |notes|
  {
    var o := Offset(notes, k);
    && o + |notes[k]| <= |v| && v[o..o + |notes[k]|] == notes[k]
    && (k > 0 ==> v[o - 1] == ' ')
  }

  lemma {:induction false} OffsetTail(notes: seq<string>, k: nat)
    requires notes != [] && k < |notes|
    ensures Offset(notes, k + 1) == |notes[0]| + 1 + Offset(notes[1..], k)
  {
    if k > 0 { OffsetTail(notes, k - 1); }
  }

  lemma {:induction false} JoinIsSpaced(notes: seq<string>)
    ensures Spaced(JoinSpace(notes), notes)
  {
    hide Offset, StandsAt, JoinSpace;
    var v := JoinSpace(notes);
    JoinUnfolds(notes);
    if |notes| > 1 {
      var first, rest := notes[0], notes[1..];
      var w := JoinSpace(rest);
      JoinIsSpaced(rest);
      OffsetTail(notes, |rest|);
      forall k | 0 <= k < |notes| ensures StandsAt(v, notes, k) {
        if k == 0 { FirstStands(v, notes); } else { LaterStands(w, notes, k - 1); }
      }
    } else if |notes| == 1 {
      FirstStands(v, notes);
      OffsetOne(notes);
    }
  }

  lemma {:induction false} JoinUnfolds(notes: seq<string>)
    ensures JoinSpace(notes) == if notes == [] then "" else if |notes| == 1 then notes[0] else notes[0] + " " + JoinSpace(notes[1..])
  {
  }

  lemma {:induction false} OffsetOne(notes: seq<string>)
    requires |notes| == 1
    ensures Offset(notes, 1) == |notes[0]| + 1
  {
    assert Offset(notes, 0) == 0;
  }

  lemma {:induction false} FirstStands(v: string, notes: seq<string>)
    requires notes != [] && notes[0] <= v
    ensures StandsAt(v, notes, 0)
  {
    assert Offset(notes, 0) == 0;
  }

  lemma {:induction false} LaterStands(w: string, notes: seq<string>, k: nat)
    requires |notes| > 1 && k < |notes| - 1 && Spaced(w, notes[1..])
    ensures StandsAt(notes[0] + " " + w, notes, k + 1)
  {
    var v, rest := notes[0] + " " + w, notes[1..];
    assert StandsAt(w, rest, k);
    OffsetTail(notes, k);
    var o, p := Offset(rest, k), |notes[0]| + 1;
    assert v[p..] == w;
    assert v[p + o..p + o + |rest[k]|] == v[p..][o..o + |rest[k]|];
    if k == 0 {
      assert Offset(rest, 0) == 0 && v[p - 1] == ' ';
    } else {
      assert v[p + o - 1] == w[o - 1];
    }
  }

  /** Joined rows that are not blank at their ends need no stripping. */
  lemma {:induction false} JoinTrimmed(notes: seq<string>)
    requires forall k | 0 <= k < |notes| :: notes[k] != "" && Trimmed(notes[k])
    ensures Trimmed(JoinSpace(notes)) && (notes != [] ==> JoinSpace(notes) != "")
  {
    hide IsSpace;
    JoinUnfolds(notes);
    if |notes| > 1 {
      JoinTrimmed(notes[1..]);
      var v, w := JoinSpace(notes), JoinSpace(notes[1..]);
      assert v[0] == notes[0][0] && v[|v| - 1] == w[|w| - 1];
    }
  }

  lemma {:induction false} StripTrimmed(s: string)
    requires Trimmed(s)
    ensures Strip(s) == s
  {
    hide IsSpace, Strip;
    assert "" + s + "" == s;
    StripPadded("", s, "");
  }

  // ----- the continuation rows --------------------------------------------------------------------------------------

  /** The places of the notes between a row and the next assignment, all of them and in order. */
  ghost predicate NotesBetween(rows: seq<Row>, start: nat, end: nat, at: seq<nat>) {
    && start <= end <= |rows|
    && (forall j | start <= j < end :: !rows[j].Assign?)
    && (end < |rows| ==> rows[end].Assign?)
    && (forall j, k | 0 <= j < k < |at| :: at[j] < at[k])
    && (forall j: nat :: j in at <==> start <= j < end && rows[j].Note?)
  }

  ghost function Texts(rows: seq<Row>, at: seq<nat>): seq<string>
    requires forall k | 0 <= k < |at| :: at[k] < |rows| && rows[at[k]].Note?
  {
    seq(|at|, k requires 0 <= k < |at| => rows[at[k]].text)
  }

  /** One row further up, a note comes before the others and any other row changes nothing. */
  lemma NotesFrom(rows: seq<Row>, start: nat, end: nat, rest: seq<nat>)
    requires start < |rows| && !rows[start].Assign? && NotesBetween(rows, start + 1, end, rest)
    ensures NotesBetween(rows, start, end, if rows[start].Note? then [start] + rest else rest)
    ensures forall k | 0 <= k < |rest| :: start < rest[k] < |rows| && rows[rest[k]].Note?
  {
    assert forall k | 0 <= k < |rest| :: rest[k] in rest;
    var more := if rows[start].Note? then [start] + rest else rest;
    forall j: nat ensures j in more <==> start <= j < end && rows[j].Note? {
      assert j in more <==> j in rest || (rows[start].Note? && j == start);
    }
  }

  lemma NoNotes(rows: seq<Row>, start: nat)
    requires start == |rows| || (start < |rows| && rows[start].Assign?)
    ensures NotesBetween(rows, start, start, [])
  {
  }

  lemma {:induction false} BodyIsNotes(rows: seq<Row>, start: nat) returns (end: nat, at: seq<nat>)
    requires start <= |rows|
    ensures NotesBetween(rows, start, end, at)
    ensures (forall k | 0 <= k < |at| :: at[k] < |rows| && rows[at[k]].Note?) && Body(rows, start) == Texts(rows, at)
    decreases |rows| - start
  {
    hide NotesBetween;
    if start == |rows| || rows[start].Assign? {
      end, at := start, [];
      NoNotes(rows, start);
    } else {
      var rest;
      end, rest := BodyIsNotes(rows, start + 1);
      NotesFrom(rows, start, end, rest);
      if rows[start].Note? {
        at := [start] + rest;
        assert Texts(rows, at) == [rows[start].text] + Texts(rows, rest);
      } else {
        at := rest;
      }
    }
  }

  lemma {:induction false} NoteTrimmed(line: string)
    requires Classify(line).Note?
    ensures Assignment(line).None? && Classify(line).text == Strip(line) != "" && Trimmed(Strip(line)) && Strip(line)[0] != '#'
  {
    hide Assignment, Strip, Trimmed, Classify;
    Classified(line);
  }

  lemma {:induction false} NoteIff(line: string)
    ensures Classify(line).Note? <==> Assignment(line).None? && Strip(line) != "" && Strip(line)[0] != '#'
    ensures Classify(line).Assign? <==> Assignment(line).Some?
  {
    hide Assignment, Strip, Trimmed;
  }

  /** The lines that continue an assignment: neither blank nor a comment, up to the next assignment, in order. */
  ghost predicate ContinuedBy(lines: seq<string>, i: nat, end: nat, at: seq<nat>) {
    && i < end <= |lines|
    && (forall j | i < j < end :: Assignment(lines[j]).None?)
    && (end < |lines| ==> Assignment(lines[end]).Some?)
    && (forall j, k | 0 <= j < k < |at| :: at[j] < at[k])
    && (forall j: nat :: j in at <==> i < j < end && Strip(lines[j]) != "" && Strip(lines[j])[0] != '#')
  }

  ghost function StrippedAt(lines: seq<string>, at: seq<nat>): seq<string>
    requires forall k | 0 <= k < |at| :: at[k] < |lines|
  {
    seq(|at|, k requires 0 <= k < |at| => Strip(lines[at[k]]))
  }

  lemma {:induction false} NotesAreLines(lines: seq<string>, i: nat, end: nat, at: seq<nat>)
    requires i < |lines| && NotesBetween(Rows(lines), i + 1, end, at)
    ensures ContinuedBy(lines, i, end, at) && (forall k | 0 <= k < |at| :: at[k] < |lines| && Rows(lines)[at[k]].Note?)
    ensures Texts(Rows(lines), at) == StrippedAt(lines, at)
    ensures forall k | 0 <= k < |at| :: StrippedAt(lines, at)[k] != "" && Trimmed(StrippedAt(lines, at)[k])
  {
    hide Assignment, Strip, Trimmed, Classify;
    forall j | 0 <= j < |lines| ensures
      && (Rows(lines)[j].Note? <==> Assignment(lines[j]).None? && Strip(lines[j]) != "" && Strip(lines[j])[0] != '#')
      && (Rows(lines)[j].Assign? <==> Assignment(lines[j]).Some?)
    {
      NoteIff(lines[j]);
    }
    assert forall k | 0 <= k < |at| :: at[k] in at;
    forall k | 0 <= k < |at| ensures Rows(lines)[at[k]].text == Strip(lines[at[k]]) != "" && Trimmed(Strip(lines[at[k]])) {
      NoteTrimmed(lines[at[k]]);
    }
  }

  /**
   * The last assignment of a key, when nothing follows its equals sign: its value is made of the stripped lines up to the
   * next assignment that are neither blank nor comments, in their order, each after the first preceded by one space.
   */
  lemma {:induction false} ContinuationValue(text: string, key: string, i: nat) returns (end: nat, at: seq<nat>)
    requires i < |Lines(text)| && Assignment(Lines(text)[i]) == Some(Pair(key, ""))
    requires forall j | i < j < |Lines(text)| && Assignment(Lines(text)[j]).Some? :: Assignment(Lines(text)[j]).value.key != key
    ensures ContinuedBy(Lines(text), i, end, at) && forall k | 0 <= k < |at| :: at[k] < |Lines(text)|
    ensures key in Pairs(text) && Spaced(Pairs(text)[key], StrippedAt(Lines(text), at))
  {
    hide Assignment, Strip, Trimmed, Classify, Lines, Spaced, ContinuedBy, JoinSpace;
    var lines := Lines(text);
    var rows := Rows(lines);
    LastRow(lines, key, i);
    LastAssignmentWins(rows, |rows|, key);
    end, at := BodyIsNotes(rows, i + 1);
    NotesAreLines(lines, i, end, at);
    var notes := StrippedAt(lines, at);
    JoinTrimmed(notes);
    StripTrimmed(JoinSpace(notes));
    JoinIsSpaced(notes);
    assert ValueAt(rows, i) == JoinSpace(notes);
  }

  lemma {:induction false} LastRow(lines: seq<string>, key: string, i: nat)
    requires i < |lines| && Assignment(lines[i]) == Some(Pair(key, ""))
    requires forall j | i < j < |lines| && Assignment(lines[j]).Some? :: Assignment(lines[j]).value.key != key
    ensures var rows := Rows(lines); Assigns(rows, i, key) && rows[i].inline == "" && forall j: nat | i < j < |rows| :: !Assigns(rows, j, key)
  {
    hide Assignment, Strip, Trimmed, Classify;
    Classified(lines[i]);
    forall j: nat | i < j < |lines| ensures !Assigns(Rows(lines), j, key) { Classified(lines[j]); }
  }

  /** The last assignment of a key with something after its equals sign has just that value, stripped. */
  lemma {:induction false} InlineValue(text: string, key: string, value: string, i: nat)
    requires i < |Lines(text)| && Assignment(Lines(text)[i]) == Some(Pair(key, value)) && value != ""
    requires forall j | i < j < |Lines(text)| && Assignment(Lines(text)[j]).Some? :: Assignment(Lines(text)[j]).value.key != key
    ensures key in Pairs(text) && Pairs(text)[key] == value
  {
    hide Assignment, Strip, Trimmed, Classify, Lines, JoinSpace;
    var lines := Lines(text);
    var rows := Rows(lines);
    Classified(lines[i]);
    forall j: nat | i < j < |rows| ensures !Assigns(rows, j, key) { Classified(lines[j]); }
    LastAssignmentWins(rows, |rows|, key);
    assert Assigns(rows, i, key);
  }
}
