/** Rewriting one key of a mission text in place, and compiling a design revision out of seven such rewrites. */
module LpclRewrite {
  import opened PyText
  import opened Regex
  import opened Lpcl

  // ----- the rewriter ---------------------------------------------------------------------------------------------

  /** A position where the multi-line pattern `^KEY=.*$` matches. */
  predicate HitAt(text: string, prefix: string, p: nat) {
    p <= |text| && (p == 0 || text[p - 1] == '\n') && prefix <= text[p..]
  }

  /** The first match of `^KEY=.*$`: try every line start in turn. */
  function Search(text: string, prefix: string): (r: Option<nat>)
    ensures r.Some? ==> r.value <= |text|
    decreases |text|
  {
    var n := IndexOf(text, '\n');
    if prefix <= text then Some(0)
    else if n == |text| then None
    else
      match Search(text[n + 1..], prefix)
      case None => None
      case Some(p) => Some(n + 1 + p)
  }

  lemma {:induction false} HitInFirstLine(text: string, prefix: string)
    ensures HitAt(text, prefix, 0) <==> prefix <= text
    ensures forall q: nat | 0 < q <= IndexOf(text, '\n') || q > |text| :: !HitAt(text, prefix, q)
  {
    hide IndexOf;
    assert text[0..] == text;
  }

  lemma {:induction false} HitInRest(text: string, prefix: string, n: nat, q: nat)
    requires n < |text| && text[n] == '\n' && n < q
    ensures HitAt(text, prefix, q) <==> HitAt(text[n + 1..], prefix, q - n - 1)
  {
    if q <= |text| { assert text[q..] == text[n + 1..][q - n - 1..]; }
  }

  /** The search returns the leftmost position at which the pattern matches. */
  lemma {:induction false} SearchIsLeftmost(text: string, prefix: string)
    ensures var r := Search(text, prefix);
            && (r.Some? ==> HitAt(text, prefix, r.value))
            && forall q: nat | r.None? || q < r.value :: !HitAt(text, prefix, q)
    decreases |text|
  {
    hide IndexOf, HitAt;
    var n := IndexOf(text, '\n');
    HitInFirstLine(text, prefix);
    if !(prefix <= text) && n < |text| {
      SearchIsLeftmost(text[n + 1..], prefix);
      forall q: nat | n < q ensures HitAt(text, prefix, q) <==> HitAt(text[n + 1..], prefix, q - n - 1) {
        HitInRest(text, prefix, n, q);
      }
    }
  }

  /** Put `line` in place of the text from `p` to the end of its line. */
  function Splice(text: string, p: nat, line: string): string
    requires p <= |text|
  {
    text[..p] + line + text[p + IndexOf(text[p..], '\n')..]
  }

  /** `_replace_lpcl_key`: replace the first matching line, or append one. */
  function ReplaceKey(text: string, key: string, value: string): string {
    var line := key + "=" + value;
    match Search(text, key + "=")
    case Some(p) => Splice(text, p, line)
    case None => RStrip(text) + "\n" + line + "\n"
  }

  /** Values that survive the rewriter and the reader unchanged. */
  predicate PlainValue(v: string) {
    v != "" && Trimmed(v) && '\n' !in v && '\r' !in v && '\\' !in v
  }

  // ----- rows -----------------------------------------------------------------------------------------------------

  /** A line that starts with `KEY=` is read as an assignment of that key. */
  lemma {:induction false} AssignmentOfFlush(key: string, rest: string)
    requires IsKey(key)
    ensures Assignment(key + "=" + rest) == Some(Pair(key, Strip(rest)))
  {
    hide IsSpace, Strip;
    var line := key + "=" + rest;
    var a, b := StripSplits(rest);
    KeyCharIsNoSpace(key[0]);
    KeyCharIsNoSpace(key[|key| - 1]);
    EqualsIsNoSpace();
    if Strip(rest) == "" {
      assert line == "" + (key + "=") + (a + b);
      StripPadded("", key + "=", a + b);
      SplitsAtEquals(key + "=", key, "");
      assert Strip("") == "" by { assert "" + "" + "" == ""; StripPadded("", "", ""); }
    } else {
      var core := key + "=" + a + Strip(rest);
      assert line == "" + core + b;
      assert core[|core| - 1] == Strip(rest)[|Strip(rest)| - 1];
      StripPadded("", core, b);
      SplitsAtEquals(core, key, a + Strip(rest));
      assert a + Strip(rest) == a + Strip(rest) + "";
      StripPadded(a, Strip(rest), "");
    }
  }

  lemma {:induction false} SplitsAtEquals(row: string, key: string, right: string)
    requires IsKey(key) && row == key + "=" + right
    ensures IndexOf(row, '=') == |key| && Strip(row[..|key|]) == key && row[|key| + 1..] == right
  {
    hide IsSpace, Strip;
    forall i | 0 <= i < |key| ensures row[i] != '=' { KeyCharIsNoSpace(key[i]); }
    IndexOfUnique(row, '=', |key|);
    KeyCharIsNoSpace(key[0]);
    KeyCharIsNoSpace(key[|key| - 1]);
    assert row[..|key|] == "" + key + "";
    StripPadded("", key, "");
  }

  predicate IsFlush(row: Row, key: string) { row.Assign? && row.key == key && row.flush }

  /** The pattern sees exactly the flush assignments of the key. */
  lemma {:induction false} FlushLine(line: string, key: string)
    requires IsKey(key)
    ensures key + "=" <= line <==> IsFlush(Classify(line), key)
  {
    hide IsSpace, Strip, Assignment;
    if key + "=" <= line {
      assert line == key + "=" + line[|key| + 1..];
      AssignmentOfFlush(key, line[|key| + 1..]);
    }
  }

  lemma {:induction false} RewrittenLine(key: string, value: string)
    requires IsKey(key) && PlainValue(value)
    ensures Classify(key + "=" + value) == Assign(key, value, true)
    ensures '\n' !in key + "=" + value && '\r' !in key + "=" + value
  {
    hide IsSpace, Strip, Assignment;
    AssignmentOfFlush(key, value);
    assert "" + value + "" == value;
    StripPadded("", value, "");
  }

  lemma {:induction false} OneLine(s: string)
    requires '\n' !in s
    ensures SplitNl(s) == [s] && IndexOf(s, '\n') == |s|
  {
    if IndexOf(s, '\n') < |s| { assert false; }
  }

  /** The index of the first line with a given prefix, or the number of lines. */
  function FirstWith(lines: seq<string>, prefix: string): (i: nat)
    ensures i <= |lines| && (i < |lines| ==> prefix <= lines[i])
    ensures forall j | 0 <= j < i :: !(prefix <= lines[j])
  {
    if lines == [] || prefix <= lines[0] then 0 else 1 + FirstWith(lines[1..], prefix)
  }

  lemma {:induction false} SpliceFirst(first: string, rest: string, line: string)
    requires '\n' !in first
    ensures Splice(first + "\n" + rest, 0, line) == line + "\n" + rest
    ensures Splice(first, 0, line) == line
  {
    var text := first + "\n" + rest;
    assert text[0..] == text && first[0..] == first;
    IndexOfUnique(text, '\n', |first|);
    assert text[|first|..] == "\n" + rest;
    OneLine(first);
  }

  lemma {:induction false} SpliceLater(first: string, rest: string, p: nat, line: string)
    requires p <= |rest|
    ensures Splice(first + "\n" + rest, |first| + 1 + p, line) == first + "\n" + Splice(rest, p, line)
  {
    hide IndexOf;
    SpliceAfter(first + "\n", rest, p, line);
  }

  lemma {:induction false} SpliceAfter(head: string, rest: string, p: nat, line: string)
    requires p <= |rest|
    ensures Splice(head + rest, |head| + p, line) == head + Splice(rest, p, line)
  {
    hide IndexOf;
    var text := head + rest;
    assert text[|head| + p..] == rest[p..];
    var e := p + IndexOf(rest[p..], '\n');
    assert text[..|head| + p] == head + rest[..p];
    assert text[|head| + e..] == rest[e..];
  }

  lemma {:induction false} PrefixOfFirst(first: string, rest: string, prefix: string)
    requires '\n' !in prefix
    ensures prefix <= first + "\n" + rest <==> prefix <= first
  {
    var text := first + "\n" + rest;
    assert text[|first|] == '\n';
    if prefix <= text && |first| < |prefix| {
      assert false;
    }
  }

  lemma {:induction false} FirstNewline(first: string, rest: string)
    requires '\n' !in first
    ensures IndexOf(first + "\n" + rest, '\n') == |first| && (first + "\n" + rest)[|first| + 1..] == rest
  {
    IndexOfUnique(first + "\n" + rest, '\n', |first|);
  }

  /** The pattern search, on a text whose first line is taken apart. */
  lemma {:induction false} SearchCons(first: string, rest: string, prefix: string)
    requires '\n' !in first && '\n' !in prefix
    ensures Search(first + "\n" + rest, prefix)
            == if prefix <= first then Some(0)
               else if Search(rest, prefix).Some? then Some(|first| + 1 + Search(rest, prefix).value) else None
  {
    hide IndexOf;
    var text := first + "\n" + rest;
    PrefixOfFirst(first, rest, prefix);
    FirstNewline(first, rest);
  }

  /** In lines, splicing at the match changes the first line with the prefix and nothing else. */
  ghost predicate ChangesFirst(text: string, prefix: string, line: string) {
    var lines := SplitNl(text);
    var i := FirstWith(lines, prefix);
    var r := Search(text, prefix);
    if i == |lines| then r == None else r.Some? && SplitNl(Splice(text, r.value, line)) == lines[i := line]
  }

  lemma {:induction false} SplitCons(first: string, rest: string)
    requires '\n' !in first
    ensures SplitNl(first + "\n" + rest) == [first] + SplitNl(rest)
  {
    OneLine(first);
    SplitAtNl(first, rest);
  }

  lemma {:induction false} FirstWithCons(first: string, tail: seq<string>, prefix: string)
    ensures FirstWith([first] + tail, prefix) == if prefix <= first then 0 else 1 + FirstWith(tail, prefix)
  {
    assert ([first] + tail)[1..] == tail;
  }

  lemma {:induction false} ChangesFirstCons(first: string, rest: string, prefix: string, line: string)
    requires '\n' !in first && '\n' !in prefix && '\n' !in line && ChangesFirst(rest, prefix, line)
    ensures ChangesFirst(first + "\n" + rest, prefix, line)
  {
    hide Splice, Search, IndexOf, SplitNl, FirstWith;
    var tail := SplitNl(rest);
    SplitCons(first, rest);
    SearchCons(first, rest, prefix);
    FirstWithCons(first, tail, prefix);
    if prefix <= first {
      SpliceFirst(first, rest, line);
      SplitCons(line, rest);
      assert ([first] + tail)[0 := line] == [line] + tail;
    } else {
      var i := FirstWith(tail, prefix);
      if i < |tail| {
        var p := Search(rest, prefix).value;
        SpliceLater(first, rest, p, line);
        SplitCons(first, Splice(rest, p, line));
        assert [first] + tail[i := line] == ([first] + tail)[i + 1 := line];
      }
    }
  }

  lemma {:induction false} SpliceChangesFirst(text: string, prefix: string, line: string)
    requires '\n' !in prefix && '\n' !in line
    ensures ChangesFirst(text, prefix, line)
    decreases |text|
  {
    hide ChangesFirst;
    var n := IndexOf(text, '\n');
    if n == |text| {
      ChangesOnly(text, prefix, line);
    } else {
      SpliceChangesFirst(text[n + 1..], prefix, line);
      assert text == text[..n] + "\n" + text[n + 1..];
      ChangesFirstCons(text[..n], text[n + 1..], prefix, line);
    }
  }

  lemma {:induction false} ChangesOnly(text: string, prefix: string, line: string)
    requires IndexOf(text, '\n') == |text| && '\n' !in line
    ensures ChangesFirst(text, prefix, line)
  {
    hide Splice;
    SpliceFirst(text, "", line);
    OneLine(line);
    OneLine(text);
    assert [text][0 := line] == [line];
  }

  // ----- what a rewrite does to the rows and to the dictionary ------------------------------------------------------

  function AllPairs(rows: seq<Row>): map<string, string> { PairsUpTo(rows, |rows|) }

  /** The first row that the pattern of `key` matches, or the number of rows. */
  function FirstFlush(rows: seq<Row>, key: string, from: nat := 0): (i: nat)
    requires from <= |rows|
    ensures from <= i <= |rows| && (i < |rows| ==> IsFlush(rows[i], key))
    ensures forall j | from <= j < i :: !IsFlush(rows[j], key)
    decreases |rows| - from
  {
    if from == |rows| || IsFlush(rows[from], key) then from else FirstFlush(rows, key, from + 1)
  }

  predicate NotAfter(rows: seq<Row>, i: nat, n: nat, key: string) {
    forall j: nat | i < j < n :: !Assigns(rows, j, key)
  }

  /** No row after the one the rewriter would replace assigns the key again. */
  predicate Replaceable(rows: seq<Row>, key: string) {
    NotAfter(rows, FirstFlush(rows, key), |rows|, key)
  }

  /** The effect of a rewrite: the key gets the value unless a later row still overrides it; nothing else changes. */
  ghost predicate Rewrites(was: seq<Row>, now: seq<Row>, key: string, value: string) {
    && AllPairs(now) == (if Replaceable(was, key) then AllPairs(was)[key := value] else AllPairs(was))
    && forall k: string | k != key :: Replaceable(now, k) == Replaceable(was, k)
  }

  lemma {:induction false} BodyOfReplaced(rows: seq<Row>, i: nat, row: Row, j: nat)
    requires i < |rows| && rows[i].Assign? && row.Assign?
    ensures Body(rows[i := row], j) == Body(rows, j)
    decreases |rows| - j
  {
    if j < |rows| {
      BodyOfReplaced(rows, i, row, j + 1);
    }
  }

  lemma {:induction false} PairsOfReplaced(rows: seq<Row>, i: nat, key: string, value: string, n: nat)
    requires i < |rows| && Assigns(rows, i, key) && value != "" && n <= |rows|
    ensures PairsUpTo(rows[i := Assign(key, value, true)], n)
            == if i < n && NotAfter(rows, i, n, key) then PairsUpTo(rows, n)[key := value] else PairsUpTo(rows, n)
  {
    hide JoinSpace, Strip, Body;
    var row := Assign(key, value, true);
    var now := rows[i := row];
    if n > 0 {
      PairsOfReplaced(rows, i, key, value, n - 1);
      if now[n - 1].Assign? && n - 1 != i {
        BodyOfReplaced(rows, i, row, n);
        var before, k, v := PairsUpTo(rows, n - 1), rows[n - 1].key, ValueAt(rows, n - 1);
        assert ValueAt(now, n - 1) == v;
        assert before[key := value][k := v] == if k == key then before[k := v] else before[k := v][key := value];
        assert Assigns(rows, n - 1, k);
      }
      assert i < n - 1 ==> (NotAfter(rows, i, n, key) <==> NotAfter(rows, i, n - 1, key) && !Assigns(rows, n - 1, key));
    }
  }

  lemma {:induction false} FlushOfReplaced(rows: seq<Row>, i: nat, row: Row, k: string, from: nat)
    requires i < |rows| && from <= |rows| && !IsFlush(rows[i], k) && !IsFlush(row, k)
    ensures FirstFlush(rows[i := row], k, from) == FirstFlush(rows, k, from)
    decreases |rows| - from
  {
    if from < |rows| {
      FlushOfReplaced(rows, i, row, k, from + 1);
    }
  }

  lemma {:induction false} NotAfterSame(a: seq<Row>, b: seq<Row>, i: nat, k: string)
    requires |a| == |b| && forall j: nat | j < |a| :: a[j] == b[j] || (!Assigns(a, j, k) && !Assigns(b, j, k))
    ensures NotAfter(a, i, |a|, k) == NotAfter(b, i, |b|, k)
  {
    assert forall j: nat | j < |a| :: Assigns(a, j, k) == Assigns(b, j, k);
  }

  /** The replace branch, on rows. */
  lemma {:induction false} ReplaceRewrites(rows: seq<Row>, key: string, value: string)
    requires FirstFlush(rows, key) < |rows| && value != ""
    ensures Rewrites(rows, rows[FirstFlush(rows, key) := Assign(key, value, true)], key, value)
  {
    hide PairsUpTo;
    var i := FirstFlush(rows, key);
    var row := Assign(key, value, true);
    PairsOfReplaced(rows, i, key, value, |rows|);
    forall k: string | k != key ensures Replaceable(rows[i := row], k) == Replaceable(rows, k) {
      FlushOfReplaced(rows, i, row, k, 0);
      NotAfterSame(rows, rows[i := row], FirstFlush(rows, k), k);
    }
  }

  /** Rows that end what came before: an assignment, or nothing but skipped rows. */
  predicate Closes(ext: seq<Row>) {
    (ext != [] && ext[0].Assign?) || forall i | 0 <= i < |ext| :: ext[i].Skip?
  }

  lemma {:induction false} BodyOfExtended(base: seq<Row>, ext: seq<Row>, j: nat)
    requires Closes(ext) && j <= |base| + |ext|
    requires (ext != [] && ext[0].Assign?) ==> j <= |base|
    ensures Body(base + ext, j) == if j <= |base| then Body(base, j) else []
    decreases |base| + |ext| - j
  {
    var all := base + ext;
    if j < |base| {
      assert all[j] == base[j];
      BodyOfExtended(base, ext, j + 1);
    } else if j < |all| {
      assert all[j] == ext[j - |base|];
      if all[j].Skip? {
        BodyOfExtended(base, ext, j + 1);
      }
    }
  }

  lemma {:induction false} PairsOfExtended(base: seq<Row>, ext: seq<Row>, n: nat)
    requires Closes(ext) && n <= |base|
    ensures PairsUpTo(base + ext, n) == PairsUpTo(base, n)
  {
    hide JoinSpace, Strip, Body;
    if n > 0 {
      PairsOfExtended(base, ext, n - 1);
      assert (base + ext)[n - 1] == base[n - 1];
      if base[n - 1].Assign? {
        BodyOfExtended(base, ext, n);
        assert ValueAt(base + ext, n - 1) == ValueAt(base, n - 1);
      }
    }
  }

  lemma {:induction false} FlushOfExtended(base: seq<Row>, ext: seq<Row>, k: string, from: nat)
    requires from <= |base| + |ext| && forall i | 0 <= i < |ext| :: !IsFlush(ext[i], k)
    ensures var i := FirstFlush(base + ext, k, from);
            if from <= |base| && FirstFlush(base, k, from) < |base| then i == FirstFlush(base, k, from)
            else i == |base + ext|
    decreases |base| + |ext| - from
  {
    if from < |base| {
      assert (base + ext)[from] == base[from];
      FlushOfExtended(base, ext, k, from + 1);
    } else if from < |base + ext| {
      assert (base + ext)[from] == ext[from - |base|];
      FlushOfExtended(base, ext, k, from + 1);
    }
  }

  lemma {:induction false} ReplaceableOfExtended(base: seq<Row>, ext: seq<Row>, k: string)
    requires forall i: nat | i < |ext| :: !Assigns(ext, i, k)
    ensures Replaceable(base + ext, k) == Replaceable(base, k)
  {
    hide FirstFlush;
    var all := base + ext;
    assert forall i: nat | i < |ext| :: Assigns(ext, i, k) || !IsFlush(ext[i], k);
    FlushOfExtended(base, ext, k, 0);
    assert forall j: nat | j < |base| :: Assigns(all, j, k) == Assigns(base, j, k);
    assert forall j: nat | |base| <= j < |all| :: Assigns(all, j, k) == Assigns(ext, j - |base|, k);
    if FirstFlush(base, k) < |base| && Replaceable(all, k) {
      forall j: nat | FirstFlush(base, k) < j < |base| ensures !Assigns(base, j, k) {
        assert !Assigns(all, j, k);
      }
    }
  }

  /** The append branch, on rows: trailing blanks give way to the new assignment. */
  lemma {:induction false} AppendRewrites(base: seq<Row>, blanks: seq<Row>, key: string, value: string)
    requires forall i | 0 <= i < |blanks| :: blanks[i].Skip?
    requires FirstFlush(base + blanks, key) == |base + blanks| && value != ""
    ensures Rewrites(base + blanks, base + [Assign(key, value, true), Skip], key, value)
  {
    hide PairsUpTo, Replaceable, FirstFlush;
    var ext := [Assign(key, value, true), Skip];
    AppendedPairs(base, key, value);
    SkippedPairs(base, blanks);
    NothingFlush(base + blanks, key);
    forall k: string | k != key ensures Replaceable(base + ext, k) == Replaceable(base + blanks, k) {
      ReplaceableOfExtended(base, ext, k);
      ReplaceableOfExtended(base, blanks, k);
    }
  }

  lemma {:induction false} NothingFlush(rows: seq<Row>, key: string)
    requires FirstFlush(rows, key) == |rows|
    ensures Replaceable(rows, key)
  {
  }

  lemma {:induction false} AppendedPairs(base: seq<Row>, key: string, value: string)
    requires value != ""
    ensures AllPairs(base + [Assign(key, value, true), Skip]) == AllPairs(base)[key := value]
  {
    hide JoinSpace, Strip, Body;
    var all := base + [Assign(key, value, true), Skip];
    PairsOfExtended(base, [Assign(key, value, true), Skip], |base|);
    assert all[|base|] == Assign(key, value, true) && all[|base| + 1] == Skip;
    assert PairsUpTo(all, |base| + 1) == PairsUpTo(base, |base|)[key := value];
    assert PairsUpTo(all, |base| + 2) == PairsUpTo(all, |base| + 1);
  }

  lemma {:induction false} SkippedPairs(base: seq<Row>, blanks: seq<Row>)
    requires forall i | 0 <= i < |blanks| :: blanks[i].Skip?
    ensures AllPairs(base + blanks) == AllPairs(base)
  {
    hide PairsUpTo;
    PairsOfExtended(base, blanks, |base|);
    SkipsOthers(base + blanks, |base|, |base + blanks|);
  }

  // ----- the rewriter on texts -------------------------------------------------------------------------------------

  function TextRows(text: string): seq<Row> { Rows(SplitNl(text)) }

  /** Without carriage returns the reader's lines are the newline-separated ones. */
  lemma {:induction false} PlainText(text: string)
    requires '\r' !in text
    ensures Pairs(text) == AllPairs(TextRows(text))
  {
    NoCrLf(text);
    assert ReplaceCr(text) == text;
  }

  lemma {:induction false} NoCrLf(text: string)
    requires '\r' !in text
    ensures ReplaceCrLf(text) == text
  {
    if text != "" {
      NoCrLf(text[1..]);
    }
  }

  /** Every carriage return is part of a CRLF line end. */
  predicate Tidy(text: string) {
    forall i | 0 <= i < |text| && text[i] == '\r' :: i + 1 < |text| && text[i + 1] == '\n'
  }

  lemma {:induction false} CrLfEnd(first: string, rest: string)
    requires '\n' !in first
    ensures ReplaceCrLf(first + "\r\n" + rest) == first + "\n" + ReplaceCrLf(rest)
    decreases |first|
  {
    var s := first + "\r\n" + rest;
    if first == "" {
      assert s[2..] == rest;
    } else {
      CrLfEnd(first[1..], rest);
      assert s[1..] == first[1..] + "\r\n" + rest;
    }
  }

  lemma {:induction false} LfEnd(first: string, rest: string)
    requires '\n' !in first && (first == "" || first[|first| - 1] != '\r')
    ensures ReplaceCrLf(first + "\n" + rest) == first + "\n" + ReplaceCrLf(rest)
    decreases |first|
  {
    var s := first + "\n" + rest;
    if first == "" {
      assert s[1..] == rest;
    } else {
      LfEnd(first[1..], rest);
      assert s[1..] == first[1..] + "\n" + rest;
    }
  }

  lemma {:induction false} CrConcat(a: string, b: string)
    ensures ReplaceCr(a + b) == ReplaceCr(a) + ReplaceCr(b)
  {
  }

  lemma {:induction false} NoCr(s: string)
    requires '\r' !in s
    ensures ReplaceCr(s) == s
  {
  }

  /** The lines the reader makes of a line end and what comes before it. */
  lemma {:induction false} LinesAt(first: string, rest: string)
    requires '\n' !in first
    ensures Lines(first + "\r\n" + rest) == SplitNl(ReplaceCr(first)) + Lines(rest)
    ensures first == "" || first[|first| - 1] != '\r' ==> Lines(first + "\n" + rest) == SplitNl(ReplaceCr(first)) + Lines(rest)
  {
    hide SplitNl, ReplaceCr, ReplaceCrLf;
    CrLfEnd(first, rest);
    if first == "" || first[|first| - 1] != '\r' { LfEnd(first, rest); }
    CrConcat(first + "\n", ReplaceCrLf(rest));
    CrConcat(first, "\n");
    NoCr("\n");
    SplitAtNl(ReplaceCr(first), ReplaceCr(ReplaceCrLf(rest)));
  }

  lemma {:induction false} RowsCons(line: string, lines: seq<string>)
    ensures Rows([line] + lines) == [Classify(line)] + Rows(lines)
  {
    hide Classify;
  }

  /** In a tidy text the reader's rows are those of the newline-separated lines. */
  lemma {:induction false} TidyRows(text: string)
    requires Tidy(text)
    ensures Rows(Lines(text)) == TextRows(text)
    decreases |text|
  {
    hide IndexOf, SplitNl, ReplaceCr, ReplaceCrLf, Classify, Rows, Lines;
    var n := IndexOf(text, '\n');
    if n == |text| {
      OneTidyLine(text);
    } else {
      var first, rest := text[..n], text[n + 1..];
      assert text == first + "\n" + rest;
      assert forall i | 0 <= i < |rest| :: rest[i] == text[n + 1 + i];
      TidyRows(rest);
      SplitCons(first, rest);
      RowsCons(first, SplitNl(rest));
      TidyCons(first, rest);
    }
  }

  /** A line of a tidy text holds no carriage return but the one of its own line end. */
  lemma {:induction false} TidyLine(first: string, text: string)
    requires '\n' !in first && first <= text && Tidy(text)
    ensures forall i | 0 <= i < |first| - 1 :: first[i] != '\r'
    ensures first == text ==> '\r' !in first
  {
    forall i | 0 <= i < |first| && (i + 1 < |first| || first == text) ensures first[i] != '\r' {
      assert first[i] == text[i];
      if i + 1 < |first| { assert first[i + 1] == text[i + 1] && first[i + 1] in first; }
    }
  }

  lemma {:induction false} OneTidyLine(text: string)
    requires Tidy(text) && '\n' !in text
    ensures Rows(Lines(text)) == TextRows(text)
  {
    TidyLine(text, text);
    NoCrLf(text);
    NoCr(text);
  }

  lemma {:induction false} TidyCons(first: string, rest: string)
    requires '\n' !in first && Tidy(first + "\n" + rest)
    ensures Rows(Lines(first + "\n" + rest)) == [Classify(first)] + Rows(Lines(rest))
  {
    hide Classify, Rows, Lines, IsSpace;
    var text := first + "\n" + rest;
    assert first <= text;
    TidyLine(first, text);
    if first != "" && first[|first| - 1] == '\r' {
      var f := first[..|first| - 1];
      assert first == f + ['\r'] && text == f + "\r\n" + rest;
      assert forall i | 0 <= i < |f| :: f[i] == first[i];
      LinesAt(f, rest);
      NoCr(f);
      OneLine(f);
      RowsCons(f, Lines(rest));
      CrIsSpace();
      PaddedLine(f, '\r');
    } else {
      assert '\r' !in first;
      LinesAt(first, rest);
      NoCr(first);
      OneLine(first);
      RowsCons(first, Lines(rest));
    }
  }

  lemma {:induction false} CrIsSpace()
    ensures IsSpace('\r') && IsSpace('\n')
  {
  }

  lemma {:induction false} TidyText(text: string)
    requires Tidy(text)
    ensures Pairs(text) == AllPairs(TextRows(text))
  {
    hide Rows, Lines, TextRows;
    TidyRows(text);
  }

  lemma {:induction false} RowsOfReplaced(lines: seq<string>, i: nat, line: string)
    requires i < |lines|
    ensures Rows(lines[i := line]) == Rows(lines)[i := Classify(line)]
  {
    hide Classify;
  }

  lemma {:induction false} RowsConcat(a: seq<string>, b: seq<string>)
    ensures Rows(a + b) == Rows(a) + Rows(b)
  {
    hide Classify;
  }

  lemma {:induction false} FlushIsPrefix(lines: seq<string>, key: string)
    requires IsKey(key)
    ensures FirstFlush(Rows(lines), key) == FirstWith(lines, key + "=")
  {
    hide Classify;
    forall i | 0 <= i < |lines| ensures key + "=" <= lines[i] <==> IsFlush(Rows(lines)[i], key) {
      FlushLine(lines[i], key);
    }
  }

  /** Blanks at the end of a text only add rows that are skipped. */
  lemma {:induction false} TrailingBlanks(s: string, w: string)
    requires Blank(w)
    ensures |TextRows(s)| <= |TextRows(s + w)| && TextRows(s) == TextRows(s + w)[..|TextRows(s)|]
    ensures forall i | |TextRows(s)| <= i < |TextRows(s + w)| :: TextRows(s + w)[i].Skip?
    decreases |w|
  {
    hide TextRows, IsSpace;
    if w == "" {
      assert s + w == s;
    } else {
      var v, c := w[..|w| - 1], w[|w| - 1];
      assert s + w == (s + v) + [c];
      TrailingBlanks(s, v);
      OneBlank(s + v, c);
    }
  }

  lemma {:induction false} OneBlank(s: string, c: char)
    requires IsSpace(c)
    ensures var a, b := TextRows(s), TextRows(s + [c]); b == if c == '\n' then a + [Skip] else a
  {
    hide Classify, IsSpace;
    if c == '\n' {
      assert s + [c] == s + "\n" + "";
      SplitAtNl(s, "");
      assert SplitNl("") == [""];
      RowsConcat(SplitNl(s), [""]);
      assert Classify("") == Skip by { EmptyLine(); }
    } else {
      GrowLast(s, c);
      var lines := SplitNl(s);
      var last := lines[|lines| - 1];
      RowsOfReplaced(lines, |lines| - 1, last + [c]);
      PaddedLine(last, c);
    }
  }

  lemma {:induction false} EmptyLine()
    ensures Classify("") == Skip
  {
  }

  lemma {:induction false} GrowLast(s: string, c: char)
    requires c != '\n'
    ensures var lines := SplitNl(s); SplitNl(s + [c]) == lines[|lines| - 1 := lines[|lines| - 1] + [c]]
    decreases |s|
  {
    hide SplitNl, IndexOf;
    var n := IndexOf(s, '\n');
    if n == |s| {
      OneLine(s + [c]);
      OneLine(s);
    } else {
      var first, rest := s[..n], s[n + 1..];
      assert s == first + "\n" + rest;
      assert s + [c] == first + "\n" + (rest + [c]);
      GrowLast(rest, c);
      SplitCons(first, rest);
      SplitCons(first, rest + [c]);
    }
  }

  /** Whitespace at the end of a line changes nothing about it. */
  lemma {:induction false} PaddedLine(line: string, c: char)
    requires IsSpace(c) && c != '\n'
    ensures Classify(line + [c]) == Classify(line)
  {
    hide IsSpace, Strip;
    assert line + [c] == "" + line + [c];
    StripIgnoresPadding("", line, [c]);
    var p := Assignment(line);
    if p.Some? {
      var prefix := p.value.key + "=";
      if prefix <= line + [c] && !(prefix <= line) {
        assert |prefix| == |line| + 1;
        assert prefix[|line|] == (line + [c])[|line|] == c;
        EqualsIsNoSpace();
        assert false;
      }
    }
  }

  /** The rewriter does to the rows of a text what a rewrite should. */
  lemma {:induction false} ReplaceKeyRewrites(text: string, key: string, value: string)
    requires IsKey(key) && PlainValue(value)
    ensures Rewrites(TextRows(text), TextRows(ReplaceKey(text, key, value)), key, value)
  {
    hide Classify, Rewrites, Splice, Search, RStrip;
    var line := key + "=" + value;
    var lines := SplitNl(text);
    RewrittenLine(key, value);
    FlushIsPrefix(lines, key);
    SpliceChangesFirst(text, key + "=", line);
    var i := FirstWith(lines, key + "=");
    if i < |lines| {
      RowsOfReplaced(lines, i, line);
      ReplaceRewrites(TextRows(text), key, value);
    } else {
      AppendedRows(text, line);
      var base := RStrip(text);
      var n := |TextRows(base)|;
      assert text == base + text[|base|..];
      TrailingBlanks(base, text[|base|..]);
      assert TextRows(text) == TextRows(base) + TextRows(text)[n..];
      AppendRewrites(TextRows(base), TextRows(text)[n..], key, value);
    }
  }

  lemma {:induction false} AppendedLines(base: string, line: string)
    requires '\n' !in line
    ensures SplitNl(base + "\n" + line + "\n") == SplitNl(base) + [line, ""]
  {
    hide SplitNl;
    assert base + "\n" + line + "\n" == base + "\n" + (line + "\n" + "");
    SplitAtNl(base, line + "\n" + "");
    SplitCons(line, "");
    OneLine("");
  }

  lemma {:induction false} AppendedRows(text: string, line: string)
    requires '\n' !in line
    ensures TextRows(RStrip(text) + "\n" + line + "\n") == TextRows(RStrip(text)) + [Classify(line), Skip]
  {
    hide Classify, RStrip, SplitNl, Rows;
    var base := RStrip(text);
    AppendedLines(base, line);
    RowsConcat(SplitNl(base), [line, ""]);
    RowsOfTwo(line);
  }

  lemma {:induction false} RowsOfTwo(line: string)
    ensures Rows([line, ""]) == [Classify(line), Skip]
  {
    hide Classify;
    EmptyLine();
    assert [line, ""] == [line] + [""] && [line, ""][1..] == [""];
  }

  lemma {:induction false} KeepsTidy(text: string, key: string, value: string)
    requires Tidy(text) && IsKey(key) && PlainValue(value)
    ensures Tidy(ReplaceKey(text, key, value))
  {
    hide Search, RStrip, IndexOf, PlainValue, Splice, Tidy, IsKey, HitAt, Classify;
    var line := key + "=" + value;
    RewrittenLine(key, value);
    match Search(text, key + "=")
    case Some(p) =>
      FoundAtLineStart(text, key + "=");
      TidySplice(text, p, line);
    case None => TidyAppend(text, line);
  }

  lemma {:induction false} FoundAtLineStart(text: string, prefix: string)
    requires Search(text, prefix).Some?
    ensures var p := Search(text, prefix).value; p <= |text| && (p == 0 || text[p - 1] == '\n') && prefix <= text[p..]
  {
    hide Search;
    SearchIsLeftmost(text, prefix);
  }

  lemma {:induction false} TidyAppend(text: string, line: string)
    requires Tidy(text) && '\r' !in line
    ensures Tidy(RStrip(text) + "\n" + line + "\n")
  {
    hide RStrip;
    var base := RStrip(text);
    var now := base + "\n" + line + "\n";
    CrIsSpace();
    forall i | 0 <= i < |now| && now[i] == '\r' ensures i + 1 < |now| && now[i + 1] == '\n' {
      assert i < |base| && base[i] == text[i];
      assert i + 1 < |base| && base[i + 1] == text[i + 1];
    }
  }

  lemma {:induction false} TidySplice(text: string, p: nat, line: string)
    requires Tidy(text) && '\r' !in line && p <= |text| && (p == 0 || text[p - 1] == '\n')
    ensures Tidy(Splice(text, p, line))
  {
    hide IndexOf;
    var q := p + IndexOf(text[p..], '\n');
    var now := Splice(text, p, line);
    forall i | 0 <= i < |now| && now[i] == '\r' ensures i + 1 < |now| && now[i + 1] == '\n' {
      if i < p {
        assert now[i] == text[i] && i + 1 < p;
        assert now[i + 1] == text[i + 1];
      } else {
        assert i >= p + |line|;
        var k := i - p - |line| + q;
        assert now[i] == text[k] && text[k + 1] == '\n';
        assert now[i + 1] == text[k + 1];
      }
    }
  }

  /**
   * Reading a rewritten text gives the old dictionary with exactly that key set to the value,
   * unless a row after the first match assigns the key again: then the dictionary does not change at all.
   */
  lemma {:induction false} RewriteExact(text: string, key: string, value: string)
    requires Tidy(text) && IsKey(key) && PlainValue(value)
    ensures var now := ReplaceKey(text, key, value);
            && Pairs(now) == (if Replaceable(TextRows(text), key) then Pairs(text)[key := value] else Pairs(text))
            && Tidy(now)
            && forall k: string | k != key :: Replaceable(TextRows(now), k) == Replaceable(TextRows(text), k)
  {
    hide ReplaceKey, TextRows, AllPairs, Pairs, Replaceable, Tidy;
    ReplaceKeyRewrites(text, key, value);
    KeepsTidy(text, key, value);
    TidyText(text);
    TidyText(ReplaceKey(text, key, value));
  }

  /** The rewrite does what it is for exactly when no later row overrides it, or it changes nothing anyway. */
  lemma {:induction false} RewriteIff(text: string, key: string, value: string)
    requires Tidy(text) && IsKey(key) && PlainValue(value)
    ensures Pairs(ReplaceKey(text, key, value)) == Pairs(text)[key := value]
            <==> Replaceable(TextRows(text), key) || (key in Pairs(text) && Pairs(text)[key] == value)
  {
    hide ReplaceKey, TextRows, Pairs, Replaceable;
    RewriteExact(text, key, value);
    var m := Pairs(text);
    assert m[key := value][key] == value;
    if key in m && m[key] == value {
      assert m == m[key := value];
    }
  }

  /** At most one assignment line for a key is enough. */
  lemma {:induction false} AtMostOneIsReplaceable(rows: seq<Row>, key: string)
    requires forall i: nat, j: nat | Assigns(rows, i, key) && Assigns(rows, j, key) :: i == j
    ensures Replaceable(rows, key)
  {
    var i := FirstFlush(rows, key);
    if i < |rows| {
      assert Assigns(rows, i, key);
    }
  }

  // ----- seven rewrites make a revision ----------------------------------------------------------------------------

  function RewriteAll(text: string, edits: seq<Pair>): string
    decreases |edits|
  {
    if edits == [] then text else RewriteAll(ReplaceKey(text, edits[0].key, edits[0].value), edits[1..])
  }

  predicate GoodEdits(rows: seq<Row>, edits: seq<Pair>) {
    && (forall e | e in edits :: IsKey(e.key) && PlainValue(e.value) && Replaceable(rows, e.key))
    && forall i, j | 0 <= i < j < |edits| :: edits[i].key != edits[j].key
  }

  /** Chained rewrites of distinct keys set exactly those keys. */
  lemma {:induction false} ChainExact(text: string, edits: seq<Pair>, k: string)
    requires Tidy(text) && GoodEdits(TextRows(text), edits)
    ensures var now := Pairs(RewriteAll(text, edits));
            && (forall i | 0 <= i < |edits| && edits[i].key == k :: k in now && now[k] == edits[i].value)
            && ((forall i | 0 <= i < |edits| :: edits[i].key != k) ==>
                 (k in now <==> k in Pairs(text)) && (k in now ==> now[k] == Pairs(text)[k]))
    decreases |edits|
  {
    hide ReplaceKey, TextRows, Pairs, Replaceable, PlainValue, IsKey, Tidy;
    if edits != [] {
      var e, rest := edits[0], edits[1..];
      assert e in edits;
      RewriteExact(text, e.key, e.value);
      forall d | d in rest ensures d in edits && d.key != e.key {
        var i :| 0 <= i < |rest| && rest[i] == d;
        assert edits[i + 1] == d;
      }
      ChainExact(ReplaceKey(text, e.key, e.value), rest, k);
      assert forall i | 1 <= i < |edits| :: edits[i] == rest[i - 1];
    }
  }

  datatype Revision = Revision(mission: string, successor: string, run: string, id: string, action: string, digest: string)

  function RevisionEdits(r: Revision): seq<Pair> {
    [Pair("MISSION_ID", r.successor), Pair("RUN", r.run), Pair("PARENT_MISSION_ID", r.mission),
     Pair("MISSION_RELATION", "DESIGN_REVISION_SUCCESSOR"), Pair("REVISION_SOURCE_ID", r.id),
     Pair("REVISION_ACTION", r.action), Pair("REVISION_REQUEST_DIGEST", r.digest)]
  }

  /** `compile_design_revision`: the text of the successor mission. */
  function CompileRevision(text: string, r: Revision): string { RewriteAll(text, RevisionEdits(r)) }

  /** The value a revision gives a key, if it writes the key at all. */
  function RevisionValue(r: Revision, k: string): Option<string> {
    if k == "MISSION_ID" then Some(r.successor)
    else if k == "RUN" then Some(r.run)
    else if k == "PARENT_MISSION_ID" then Some(r.mission)
    else if k == "MISSION_RELATION" then Some("DESIGN_REVISION_SUCCESSOR")
    else if k == "REVISION_SOURCE_ID" then Some(r.id)
    else if k == "REVISION_ACTION" then Some(r.action)
    else if k == "REVISION_REQUEST_DIGEST" then Some(r.digest)
    else None
  }

  /** No later row of the source overrides one of the seven keys, and the new values are plain. */
  ghost predicate Compilable(text: string, r: Revision) {
    && Tidy(text)
    && PlainValue(r.successor) && PlainValue(r.run) && PlainValue(r.mission)
    && PlainValue(r.id) && PlainValue(r.action) && PlainValue(r.digest)
    && forall k | RevisionValue(r, k).Some? :: Replaceable(TextRows(text), k)
  }

  lemma {:induction false} JoinedKey(a: string, b: string)
    requires IsKey(a) && IsKey(b)
    ensures IsKey(a + "_" + b)
  {
  }

  lemma {:induction false} KeyWords()
    ensures IsKey("MISSION") && IsKey("ID") && IsKey("RUN") && IsKey("PARENT") && IsKey("RELATION")
  {
  }

  lemma {:induction false} MoreKeyWords()
    ensures IsKey("REVISION") && IsKey("SOURCE") && IsKey("ACTION") && IsKey("REQUEST") && IsKey("DIGEST")
  {
  }

  lemma {:induction false} RevisionKeys(r: Revision)
    ensures forall i | 0 <= i < 7 :: IsKey(RevisionEdits(r)[i].key)
  {
    hide IsKey;
    KeyWords();
    MoreKeyWords();
    JoinedKey("MISSION", "ID");
    JoinedKey("PARENT", "MISSION" + "_" + "ID");
    JoinedKey("MISSION", "RELATION");
    JoinedKey("SOURCE", "ID");
    JoinedKey("REVISION", "SOURCE" + "_" + "ID");
    JoinedKey("REVISION", "ACTION");
    JoinedKey("REQUEST", "DIGEST");
    JoinedKey("REVISION", "REQUEST" + "_" + "DIGEST");
    assert "PARENT_MISSION_ID" == "PARENT" + "_" + ("MISSION" + "_" + "ID");
    assert "REVISION_SOURCE_ID" == "REVISION" + "_" + ("SOURCE" + "_" + "ID");
    assert "REVISION_REQUEST_DIGEST" == "REVISION" + "_" + ("REQUEST" + "_" + "DIGEST");
    assert "MISSION_ID" == "MISSION" + "_" + "ID" && "MISSION_RELATION" == "MISSION" + "_" + "RELATION";
    assert "REVISION_ACTION" == "REVISION" + "_" + "ACTION";
  }

  lemma {:induction false} RevisionKeysDiffer(r: Revision)
    ensures var e := RevisionEdits(r); forall i, j | 0 <= i < j < |e| :: e[i].key != e[j].key
  {
    var e := RevisionEdits(r);
    assert |e[0].key| == 10 && |e[1].key| == 3 && |e[2].key| == 17 && |e[3].key| == 16;
    assert |e[4].key| == 18 && |e[5].key| == 15 && |e[6].key| == 23;
  }

  lemma {:induction false} RelationIsPlain()
    ensures PlainValue("DESIGN_REVISION_SUCCESSOR")
  {
  }

  lemma {:induction false} RevisionIsGood(text: string, r: Revision)
    requires Compilable(text, r)
    ensures Tidy(text) && GoodEdits(TextRows(text), RevisionEdits(r))
  {
    hide PlainValue, IsKey, Replaceable, TextRows;
    RevisionKeys(r);
    RevisionKeysDiffer(r);
    RelationIsPlain();
    var edits := RevisionEdits(r);
    assert edits[3].value == "DESIGN_REVISION_SUCCESSOR";
    forall e | e in edits ensures IsKey(e.key) && PlainValue(e.value) && Replaceable(TextRows(text), e.key) {
      assert RevisionValue(r, e.key).Some?;
    }
  }

  /** A compiled revision reads as its source with exactly the seven keys set; every other key keeps its value. */
  lemma {:induction false} RevisionExact(text: string, r: Revision, k: string)
    requires Compilable(text, r)
    ensures var now := Pairs(CompileRevision(text, r));
            match RevisionValue(r, k)
            case Some(v) => k in now && now[k] == v
            case None => (k in now <==> k in Pairs(text)) && (k in now ==> now[k] == Pairs(text)[k])
  {
    hide TextRows, Pairs, GoodEdits, RewriteAll, Compilable, Tidy;
    RevisionIsGood(text, r);
    ValueOfEdit(r, k);
    ChainExact(text, RevisionEdits(r), k);
  }

  /** The seven rewrites give each of the seven keys its value. */
  lemma {:induction false} ValueOfEdit(r: Revision, k: string)
    ensures RevisionValue(r, k).Some? ==>
      exists i | 0 <= i < 7 :: RevisionEdits(r)[i] == Pair(k, RevisionValue(r, k).value)
    ensures RevisionValue(r, k).None? ==> forall i | 0 <= i < 7 :: RevisionEdits(r)[i].key != k
  {
    var e := RevisionEdits(r);
    assert e[0] == Pair("MISSION_ID", r.successor) && e[1] == Pair("RUN", r.run) && e[2] == Pair("PARENT_MISSION_ID", r.mission);
    assert e[3] == Pair("MISSION_RELATION", "DESIGN_REVISION_SUCCESSOR") && e[4] == Pair("REVISION_SOURCE_ID", r.id);
    assert e[5] == Pair("REVISION_ACTION", r.action) && e[6] == Pair("REVISION_REQUEST_DIGEST", r.digest);
  }

  /** The declarations of phases and protocols, by the names their keys have. */
  ghost predicate Declaration(k: string) { k == "PROTOCOLS" || "PHASE_" <= k }

  /** Every phase and the protocols of the source are those of the compiled revision. */
  lemma {:induction false} RevisionKeepsPhases(text: string, r: Revision, k: string)
    requires Compilable(text, r) && Declaration(k)
    ensures var now := Pairs(CompileRevision(text, r));
            (k in now <==> k in Pairs(text)) && (k in now ==> now[k] == Pairs(text)[k])
  {
    hide Pairs, CompileRevision, Compilable;
    RevisionExact(text, r, k);
    NoRevisionKey(r, k);
  }

  lemma {:induction false} NoRevisionKey(r: Revision, k: string)
    requires Declaration(k)
    ensures RevisionValue(r, k).None?
  {
    if k == "PROTOCOLS" {
      assert |k| == 9;
    } else {
      assert k[0] == 'P' && k[1] == 'H';
    }
  }

  // ----- why carriage returns are excluded --------------------------------------------------------------------------

  lemma {:induction false} LoneCr(a: string, b: string)
    requires '\r' !in a && '\r' !in b && (b == "" || b[0] != '\n')
    ensures ReplaceCrLf(a + "\r" + b) == a + "\r" + b
    decreases |a|
  {
    var s := a + "\r" + b;
    if a == "" {
      assert s[1..] == b;
      NoCrLf(b);
    } else {
      assert s[1..] == a[1..] + "\r" + b;
      LoneCr(a[1..], b);
    }
  }

  /** With a carriage return inside the matched line, the rewrite loses the assignment behind it. */
  lemma {:induction false} CarriageReturnLosesKey(k1: string, v1: string, k2: string, v2: string, v: string)
    requires IsKey(k1) && IsKey(k2) && k1 != k2 && PlainValue(v1) && PlainValue(v2) && PlainValue(v)
    ensures var text := k1 + "=" + v1 + "\r" + (k2 + "=" + v2);
            k2 in Pairs(text) && k2 !in Pairs(ReplaceKey(text, k1, v))
  {
    hide Classify, PlainValue, Search, Splice, RStrip;
    var a, b := k1 + "=" + v1, k2 + "=" + v2;
    var text := a + "\r" + b;
    RewrittenLine(k1, v1);
    RewrittenLine(k2, v2);
    RewrittenLine(k1, v);
    LoneCr(a, b);
    assert ReplaceCr(text) == a + "\n" + b;
    SplitCons(a, b);
    OneLine(b);
    assert Lines(text) == [a, b];
    LastAssignmentWins(Rows([a, b]), 2, k2);
    assert Assigns(Rows([a, b]), 1, k2);
    OneLine(text);
    SearchOne(text, k1 + "=");
    SpliceFirst(text, "", k1 + "=" + v);
    PlainText(k1 + "=" + v);
    OneLine(k1 + "=" + v);
    LastAssignmentWins(Rows([k1 + "=" + v]), 1, k2);
  }

  lemma {:induction false} SearchOne(text: string, prefix: string)
    requires '\n' !in text && prefix <= text
    ensures Search(text, prefix) == Some(0)
  {
  }
}
