/** The slice of Python's `re` that the LPCL panel uses: character classes with greedy repetition and backtracking. */
module Regex {
  import opened PyText

  predicate Upper(c: char) { 'A' <= c <= 'Z' }

  predicate KeyChar(c: char) { Upper(c) || '0' <= c <= '9' || c == '_' }

  datatype Class = UpperC | KeyC | SpaceC | EqualsC | NotNewline {
    predicate Has(c: char) {
      match this
      case UpperC => Upper(c)
      case KeyC => KeyChar(c)
      case SpaceC => IsSpace(c)
      case EqualsC => c == '='
      case NotNewline => c != '\n'
    }
  }

  /** A pattern is a chain of items; `Eol` is the anchor `$` and closes it. */
  datatype Pattern = Eol | One(what: Class, rest: Pattern) | Many(what: Class, rest: Pattern)

  /** The end offset of every item, in order. */
  datatype Ends = Nil | At(pos: nat, next: Ends)

  /** How far a greedy repetition of a class can run from `i`. */
  function Run(cls: Class, s: string, i: nat): (n: nat)
    requires i <= |s|
    ensures i <= n <= |s| && forall k | i <= k < n :: cls.Has(s[k])
    ensures n < |s| ==> !cls.Has(s[n])
    decreases |s| - i
  {
    if i < |s| && cls.Has(s[i]) then Run(cls, s, i + 1) else i
  }

  /** The first match that greedy backtracking finds from `i`. */
  function Match(p: Pattern, s: string, i: nat): Option<Ends>
    requires i <= |s|
    decreases p, 0
  {
    match p
    case Eol => if i == |s| || (i + 1 == |s| && s[i] == '\n') then Some(Nil) else None
    case One(c, rest) => if i < |s| && c.Has(s[i]) then Ahead(i + 1, Match(rest, s, i + 1)) else None
    case Many(c, rest) => Backtrack(rest, s, i, Run(c, s, i))
  }

  /** An item has ended at `j`: put it in front of what the others matched. */
  function Ahead(j: nat, rest: Option<Ends>): Option<Ends> {
    if rest.Some? then Some(At(j, rest.value)) else None
  }

  /** Try the longest repetition first, then give characters back one at a time. */
  function Backtrack(rest: Pattern, s: string, i: nat, j: nat): Option<Ends>
    requires i <= j <= |s|
    decreases rest, 1 + j
  {
    var here := Ahead(j, Match(rest, s, j));
    if here.Some? || j == i then here else Backtrack(rest, s, i, j - 1)
  }

  /** When no shorter repetition can continue, backtracking only ever keeps the longest one. */
  lemma {:induction false} OnlyLongest(rest: Pattern, s: string, i: nat, j: nat)
    requires i <= j <= |s|
    requires forall k | i <= k < j :: Match(rest, s, k).None?
    ensures Backtrack(rest, s, i, j) == Ahead(j, Match(rest, s, j))
    decreases j - i
  {
    if i < j {
      OnlyLongest(rest, s, i, j - 1);
    }
  }
}

/** LPCL mission text: a line-based key/value language with continuation lines, read by two implementations. */
module Lpcl {
  import opened PyText
  import opened Regex

  datatype Pair = Pair(key: string, value: string)

  /** The characters of a key by code points: capital letters, then also digits and the underscore. */
  lemma {:induction false} KeyCodes(c: char)
    ensures Upper(c) <==> 65 <= c as int <= 90
    ensures KeyChar(c) <==> 65 <= c as int <= 90 || 48 <= c as int <= 57 || c as int == 95
  {
  }

  predicate IsKey(k: string) {
    k != "" && Upper(k[0]) && forall i | 1 <= i < |k| :: KeyChar(k[i])
  }

  /** `_lpcl_assignment`: the key and value a line assigns, if it is an assignment. */
  function Assignment(line: string): Option<Pair> {
    var row := Strip(line);
    var eq := IndexOf(row, '=');
    if eq == |row| then None
    else
      var key := Strip(row[..eq]);
      if IsKey(key) then Some(Pair(key, Strip(row[eq + 1..]))) else None
  }

  // KEY_RE, from its end to its beginning
  const VALUE_RE := Many(NotNewline, Eol)
  const EQUALS_RE := One(EqualsC, Many(SpaceC, VALUE_RE))
  const SPACE_RE := Many(SpaceC, EQUALS_RE)
  const KEY_RE := One(UpperC, Many(KeyC, SPACE_RE))

  /** `KEY_RE.match(line.strip())` with its two groups. */
  function KeyMatch(line: string): Option<Pair> {
    var s := Strip(line);
    match Match(KEY_RE, s, 0)
    case Some(At(_, At(k, At(_, At(_, At(v, At(e, _))))))) =>
      if k <= |s| && v <= e <= |s| then Some(Pair(s[..k], Strip(s[v..e]))) else None
    case _ => None
  }

  // ----- the value a text gives each key -------------------------------------------------------------------------

  function ReplaceCrLf(s: string): string {
    if s == "" then ""
    else if s[0] == '\r' && |s| > 1 && s[1] == '\n' then "\n" + ReplaceCrLf(s[2..])
    else [s[0]] + ReplaceCrLf(s[1..])
  }

  function ReplaceCr(s: string): string {
    seq(|s|, i requires 0 <= i < |s| => if s[i] == '\r' then '\n' else s[i])
  }

  function Lines(text: string): (r: seq<string>)
    ensures forall i | 0 <= i < |r| :: '\n' !in r[i]
  {
    SplitNl(ReplaceCr(ReplaceCrLf(text)))
  }

  /**
   * What one line contributes: an assignment, a continuation row, or nothing (blank lines and comments).
   * An assignment is flush when its key starts the line and the equals sign follows the key at once.
   */
  datatype Row = Assign(key: string, inline: string, flush: bool) | Note(text: string) | Skip

  function Classify(line: string): Row {
    match Assignment(line)
    case Some(p) => Assign(p.key, p.value, p.key + "=" <= line)
    case None =>
      var row := Strip(line);
      if row != "" && row[0] != '#' then Note(row) else Skip
  }

  lemma {:induction false} Classified(line: string)
    ensures var p := Assignment(line); var row := Strip(line);
            if p.Some? then Classify(line).Assign? && Classify(line).key == p.value.key && Classify(line).inline == p.value.value
            else Classify(line) == if row != "" && row[0] != '#' then Note(row) else Skip
  {
    hide Assignment, Strip, Trimmed;
  }

  function Rows(lines: seq<string>): (r: seq<Row>)
    ensures |r| == |lines| && forall i | 0 <= i < |r| :: r[i] == Classify(lines[i])
  {
    hide Classify;
    seq(|lines|, i requires 0 <= i < |lines| => Classify(lines[i]))
  }

  /** The continuation rows from row `j` on, up to the next assignment. */
  function Body(rows: seq<Row>, j: nat): seq<string>
    decreases |rows| - j
  {
    if j >= |rows| || rows[j].Assign? then []
    else (if rows[j].Note? then [rows[j].text] else []) + Body(rows, j + 1)
  }

  /** The value that the assignment in row `i` stands for. */
  function ValueAt(rows: seq<Row>, i: nat): string
    requires i < |rows| && rows[i].Assign?
  {
    if rows[i].inline != "" then rows[i].inline else Strip(JoinSpace(Body(rows, i + 1)))
  }

  /** The dictionary after the first `n` rows: every assignment sets its key, later ones win. */
  function PairsUpTo(rows: seq<Row>, n: nat): map<string, string>
    requires n <= |rows|
  {
    hide ValueAt;
    if n == 0 then map[]
    else
      var before := PairsUpTo(rows, n - 1);
      if rows[n - 1].Assign? then before[rows[n - 1].key := ValueAt(rows, n - 1)] else before
  }

  /** The key/value dictionary that a mission text means. */
  function Pairs(text: string): map<string, string> {
    var rows := Rows(Lines(text));
    PairsUpTo(rows, |rows|)
  }

  predicate Assigns(rows: seq<Row>, i: nat, key: string) {
    i < |rows| && rows[i].Assign? && rows[i].key == key
  }

  /** A key is read exactly when some row assigns it, and its value is that of the last such row. */
  lemma {:induction false} LastAssignmentWins(rows: seq<Row>, n: nat, key: string)
    requires n <= |rows|
    ensures key in PairsUpTo(rows, n) <==> exists i: nat | i < n :: Assigns(rows, i, key)
    ensures forall i: nat | i < n && Assigns(rows, i, key) && (forall j: nat | i < j < n :: !Assigns(rows, j, key)) ::
              PairsUpTo(rows, n)[key] == ValueAt(rows, i)
  {
    hide ValueAt;
    if n > 0 {
      LastAssignmentWins(rows, n - 1, key);
      if Assigns(rows, n - 1, key) {
      } else {
        assert forall i: nat | i < n && Assigns(rows, i, key) :: i < n - 1;
      }
    }
  }

  lemma {:induction false} AssignmentOfStripped(line: string)
    requires '\n' !in line
    ensures Assignment(Strip(line)) == Assignment(line) && '\n' !in Strip(line)
  {
    hide Strip, KeyMatch;
    StripIdempotent(line);
    StripKeepsNoNewline(line);
  }

  // ----- the two readers -----------------------------------------------------------------------------------------

  lemma {:induction false} SkipsOthers(rows: seq<Row>, start: nat, i: nat)
    requires start <= i <= |rows| && forall k | start <= k < i :: !rows[k].Assign?
    ensures PairsUpTo(rows, i) == PairsUpTo(rows, start)
  {
    if start < i {
      SkipsOthers(rows, start, i - 1);
    }
  }

  /** `_lpcl_pairs`: the hand-written reader. */
  method LpclPairs(text: string) returns (out: map<string, string>)
    ensures out == Pairs(text)
  {
    hide Classify, Assignment, KeyMatch, Strip, JoinSpace, Lines, Trimmed;
    var lines := Lines(text);
    ghost var rows := Rows(lines);
    var i := 0;
    out := map[];
    while i < |lines|
      invariant i <= |lines| && out == PairsUpTo(rows, i)
    {
      var pair := Assignment(lines[i]);
      Classified(lines[i]);
      i := i + 1;
      if pair.Some? {
        var val := pair.value.value;
        ghost var start := i;
        if val == "" {
          i, val := Continuation(lines, i);
          SkipsOthers(rows, start, i);
        }
        assert val == ValueAt(rows, start - 1);
        out := out[pair.value.key := val];
      }
    }
  }

  /** Its inner loop: gather the continuation rows of an assignment with an empty value. */
  method Continuation(lines: seq<string>, start: nat) returns (i: nat, val: string)
    requires start <= |lines| && forall k | 0 <= k < |lines| :: '\n' !in lines[k]
    ensures start <= i <= |lines| && forall k | start <= k < i :: !Rows(lines)[k].Assign?
    ensures val == Strip(JoinSpace(Body(Rows(lines), start)))
  {
    hide Classify, Assignment, KeyMatch, Strip, JoinSpace, Trimmed;
    ghost var rows := Rows(lines);
    var buf := [];
    i := start;
    while i < |lines|
      invariant start <= i <= |lines| && forall k | start <= k < i :: !rows[k].Assign?
      invariant Body(rows, start) == buf + Body(rows, i)
    {
      var row := Strip(lines[i]);
      AssignmentOfStripped(lines[i]);
      Classified(lines[i]);
      if Assignment(row).Some? { break; }
      ghost var whole := buf + Body(rows, i);
      if row != "" && row[0] != '#' { buf := buf + [row]; }
      i := i + 1;
      assert buf + Body(rows, i) == whole;
    }
    assert buf + [] == buf;
    val := Strip(JoinSpace(buf));
  }

  /** `LpclControlBridge._parse_pairs`: the reader built on a regular expression. */
  method ParsePairs(text: string) returns (out: map<string, string>)
    ensures out == Pairs(text)
  {
    hide Classify, Assignment, KeyMatch, Strip, JoinSpace, Lines, Trimmed;
    var lines := Lines(text);
    ghost var rows := Rows(lines);
    var i := 0;
    out := map[];
    while i < |lines|
      invariant i <= |lines| && out == PairsUpTo(rows, i)
    {
      var pair := KeyMatch(lines[i]);
      Classified(lines[i]);
      KeyMatchIsAssignment(lines[i]);
      i := i + 1;
      if pair.Some? {
        var val := pair.value.value;
        ghost var start := i;
        if val == "" {
          i, val := MatchContinuation(lines, i);
          SkipsOthers(rows, start, i);
        }
        assert val == ValueAt(rows, start - 1);
        out := out[pair.value.key := val];
      }
    }
  }

  /** Its inner loop: gather the continuation rows of an assignment with an empty value. */
  method MatchContinuation(lines: seq<string>, start: nat) returns (i: nat, val: string)
    requires start <= |lines| && forall k | 0 <= k < |lines| :: '\n' !in lines[k]
    ensures start <= i <= |lines| && forall k | start <= k < i :: !Rows(lines)[k].Assign?
    ensures val == Strip(JoinSpace(Body(Rows(lines), start)))
  {
    hide Classify, Assignment, KeyMatch, Strip, JoinSpace, Trimmed;
    ghost var rows := Rows(lines);
    var buf := [];
    i := start;
    while i < |lines|
      invariant start <= i <= |lines| && forall k | start <= k < i :: !rows[k].Assign?
      invariant Body(rows, start) == buf + Body(rows, i)
    {
      var row := Strip(lines[i]);
      AssignmentOfStripped(lines[i]);
      Classified(lines[i]);
      KeyMatchIsAssignment(row);
      if KeyMatch(row).Some? { break; }
      ghost var whole := buf + Body(rows, i);
      if row != "" && row[0] != '#' { buf := buf + [row]; }
      i := i + 1;
      assert buf + Body(rows, i) == whole;
    }
    assert buf + [] == buf;
    val := Strip(JoinSpace(buf));
  }

  // ----- the regular expression recognises exactly the assignments ------------------------------------------------

  /** `(.*)$` takes the rest of a single line. */
  lemma {:induction false} ValueTail(s: string, w: nat)
    requires w <= |s| && '\n' !in s
    ensures Match(VALUE_RE, s, w) == Some(At(|s|, Nil))
  {
    assert Run(NotNewline, s, w) == |s|;
  }

  /** On a single line the part of KEY_RE from `=` on matches exactly at an equals sign. */
  lemma {:induction false} EqualsTail(s: string, j: nat)
    requires j <= |s| && '\n' !in s
    ensures Match(EQUALS_RE, s, j) == if j < |s| && s[j] == '=' then Some(AfterEquals(s, j)) else None
  {
    if j < |s| && s[j] == '=' {
      ValueTail(s, Run(SpaceC, s, j + 1));
    }
  }

  ghost function AfterEquals(s: string, j: nat): Ends
    requires j < |s|
  {
    At(j + 1, At(Run(SpaceC, s, j + 1), At(|s|, Nil)))
  }

  /** The part from the spaces on matches exactly when the spaces end in an equals sign. */
  lemma {:induction false} SpaceTail(s: string, j: nat)
    requires j <= |s| && '\n' !in s
    ensures var e := Run(SpaceC, s, j);
            Match(SPACE_RE, s, j) == if e < |s| && s[e] == '=' then Some(At(e, AfterEquals(s, e))) else None
  {
    hide IsSpace;
    var e := Run(SpaceC, s, j);
    forall k | j <= k < e ensures Match(EQUALS_RE, s, k).None? {
      EqualsTail(s, k);
      EqualsIsNoSpace();
    }
    OnlyLongest(EQUALS_RE, s, j, e);
    EqualsTail(s, e);
  }

  /** KEY_RE as a whole: a maximal key, then spaces, then an equals sign. */
  lemma {:induction false} WholeMatch(s: string)
    requires '\n' !in s && s != "" && Upper(s[0])
    ensures var k := Run(KeyC, s, 1); var e := Run(SpaceC, s, k);
            Match(KEY_RE, s, 0)
            == if e < |s| && s[e] == '=' then Some(At(1, At(k, At(e, AfterEquals(s, e))))) else None
  {
    hide IsSpace;
    var k := Run(KeyC, s, 1);
    forall j | 1 <= j < k ensures Match(SPACE_RE, s, j).None? {
      SpaceTail(s, j);
      assert KeyC.Has(s[j]);
      KeyCharIsNoSpace(s[j]);
      assert Run(SpaceC, s, j) == j;
    }
    OnlyLongest(SPACE_RE, s, 1, k);
    SpaceTail(s, k);
  }

  lemma {:induction false} EqualsIsNoSpace()
    ensures !IsSpace('=')
  {
  }

  lemma {:induction false} KeyCharIsNoSpace(c: char)
    requires KeyChar(c)
    ensures !IsSpace(c) && c != '='
  {
  }

  lemma {:induction false} StripKeepsNoNewline(line: string)
    requires '\n' !in line
    ensures '\n' !in Strip(line)
  {
  }

  /** The regular expression and the hand-written recogniser agree on every line. */
  lemma {:induction false} KeyMatchIsAssignment(line: string)
    requires '\n' !in line
    ensures KeyMatch(line) == Assignment(line)
  {
    hide IsSpace, Strip;
    var s := Strip(line);
    StripKeepsNoNewline(line);
    var eq := IndexOf(s, '=');
    if s != "" && Upper(s[0]) {
      WholeMatch(s);
      var k := Run(KeyC, s, 1);
      var e := Run(SpaceC, s, k);
      if e < |s| && s[e] == '=' {
        KeySide(s);
        ValueSide(s, e + 1);
      } else if eq < |s| && IsKey(Strip(s[..eq])) {
        HandSide(s, eq);
        assert false;
      }
    } else if eq < |s| && IsKey(Strip(s[..eq])) {
      HandSide(s, eq);
      assert false;
    }
  }

  lemma {:induction false} SpacesAreBlank(s: string, i: nat)
    requires i <= |s|
    ensures Blank(s[i..Run(SpaceC, s, i)])
  {
    hide IsSpace;
    assert forall k | i <= k < Run(SpaceC, s, i) :: SpaceC.Has(s[k]);
  }

  /** A match puts the first equals sign after the key and its padding. */
  lemma {:induction false} KeySide(s: string)
    requires s != "" && Upper(s[0])
    requires var e := Run(SpaceC, s, Run(KeyC, s, 1)); e < |s| && s[e] == '='
    ensures var k := Run(KeyC, s, 1); var e := Run(SpaceC, s, k);
            IndexOf(s, '=') == e && Strip(s[..e]) == s[..k] && IsKey(s[..k])
  {
    hide IsSpace, Strip;
    var k := Run(KeyC, s, 1);
    var e := Run(SpaceC, s, k);
    forall i | 0 <= i < e ensures s[i] != '=' {
      if i < k {
        assert i == 0 || KeyC.Has(s[i]);
        KeyCharIsNoSpace(s[i]);
      } else {
        assert SpaceC.Has(s[i]);
        EqualsIsNoSpace();
      }
    }
    IndexOfUnique(s, '=', e);
    assert forall i | 1 <= i < k :: KeyC.Has(s[i]);
    KeyCharIsNoSpace(s[0]);
    KeyCharIsNoSpace(s[k - 1]);
    SpacesAreBlank(s, k);
    assert s[..e] == "" + s[..k] + s[k..e];
    StripPadded("", s[..k], s[k..e]);
  }

  /** Padding between the equals sign and the value is not part of the value. */
  lemma {:induction false} ValueSide(s: string, i: nat)
    requires i <= |s|
    ensures Strip(s[Run(SpaceC, s, i)..|s|]) == Strip(s[i..])
  {
    hide IsSpace, Strip;
    var w := Run(SpaceC, s, i);
    SpacesAreBlank(s, i);
    assert s[i..] == s[i..w] + s[w..|s|] + "";
    StripIgnoresPadding(s[i..w], s[w..|s|], "");
  }

  /** A hand-recognised assignment is what the greedy runs of the regular expression find. */
  lemma {:induction false} HandSide(s: string, eq: nat)
    requires Trimmed(s) && eq < |s| && eq == IndexOf(s, '=') && IsKey(Strip(s[..eq]))
    ensures Upper(s[0]) && Run(SpaceC, s, Run(KeyC, s, 1)) == eq
  {
    hide IsSpace, Strip;
    var left := s[..eq];
    var key := Strip(left);
    var a, b := StripSplits(left);
    assert left[..|a|] == a;
    if a != "" {
      assert false;
    }
    KeyEnds(s, eq, key, b);
  }

  lemma {:induction false} KeyEnds(s: string, eq: nat, key: string, b: string)
    requires eq < |s| && s[eq] == '=' && s[..eq] == key + b && IsKey(key) && Blank(b)
    ensures Upper(s[0]) && Run(SpaceC, s, Run(KeyC, s, 1)) == eq
  {
    hide IsSpace;
    var n := |key|;
    assert forall i | 0 <= i < n :: s[i] == s[..eq][i] == key[i];
    assert forall i | n <= i < eq :: s[i] == s[..eq][i] == b[i - n];
    var k := Run(KeyC, s, 1);
    assert forall i | 1 <= i < n :: KeyC.Has(s[i]);
    if n < k {
      assert KeyC.Has(s[n]);
      KeyCharIsNoSpace(s[n]);
      assert false;
    }
    var e := Run(SpaceC, s, k);
    assert forall i | n <= i < eq :: SpaceC.Has(s[i]);
    if eq < e {
      assert SpaceC.Has(s[eq]);
      EqualsIsNoSpace();
      assert false;
    }
  }
}
