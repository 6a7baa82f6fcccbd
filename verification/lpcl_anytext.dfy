/**
 * Rewriting a key of any text at all, lone carriage returns included: the reader breaks lines there and the rewriter
 * does not, so replacing a matched line drops the rows hidden in the rest of it.
 */
module LpclAnyText {
  import opened PyText
  import opened Regex
  import opened Lpcl
  import opened LpclRewrite

  // ----- rows in parts ---------------------------------------------------------------------------------------------

  lemma {:induction false} BodyTail(x: seq<Row>, y: seq<Row>, j: nat)
    requires j <= |y|
    ensures Body(x + y, |x| + j) == Body(y, j)
    decreases |y| - j
  {
    if j < |y| {
      assert (x + y)[|x| + j] == y[j];
      BodyTail(x, y, j + 1);
    }
  }

  lemma {:induction false} BodyHead(x: seq<Row>, y: seq<Row>, z: seq<Row>, j: nat)
    requires j <= |x| && Body(y, 0) == Body(z, 0)
    ensures Body(x + y, j) == Body(x + z, j)
    decreases |x| - j
  {
    if j < |x| {
      assert (x + y)[j] == x[j] == (x + z)[j];
      BodyHead(x, y, z, j + 1);
    } else {
      BodyTail(x, y, 0);
      BodyTail(x, z, 0);
    }
  }

  /** What the rows of a first part mean depends on what follows only through its leading notes. */
  lemma {:induction false} PairsHead(x: seq<Row>, y: seq<Row>, z: seq<Row>, n: nat)
    requires n <= |x| && Body(y, 0) == Body(z, 0)
    ensures PairsUpTo(x + y, n) == PairsUpTo(x + z, n)
  {
    hide JoinSpace, Strip, Body;
    if n > 0 {
      PairsHead(x, y, z, n - 1);
      assert (x + y)[n - 1] == x[n - 1] == (x + z)[n - 1];
      BodyHead(x, y, z, n);
    }
  }

  /** A later part overrides an earlier one. */
  lemma {:induction false} PairsTail(x: seq<Row>, y: seq<Row>, n: nat)
    requires n <= |y|
    ensures PairsUpTo(x + y, |x| + n) == PairsUpTo(x + y, |x|) + PairsUpTo(y, n)
  {
    hide JoinSpace, Strip, Body;
    if n > 0 {
      PairsTail(x, y, n - 1);
      assert (x + y)[|x| + n - 1] == y[n - 1];
      if y[n - 1].Assign? {
        BodyTail(x, y, n);
        assert ValueAt(x + y, |x| + n - 1) == ValueAt(y, n - 1);
      }
    }
  }

  /** A skipped row changes nothing wherever it stands. */
  lemma {:induction false} SkipInside(x: seq<Row>, y: seq<Row>)
    ensures AllPairs(x + ([Skip] + y)) == AllPairs(x + y)
  {
    hide PairsUpTo;
    var s := [Skip] + y;
    BodyTail([Skip], y, 0);
    assert Body(s, 0) == Body(y, 0) by { assert s[0] == Skip && s[1..] == y; SkipBody(s); }
    PairsHead(x, s, y, |x|);
    PairsTail(x, s, |s|);
    PairsTail(x, y, |y|);
    PairsTail([Skip], y, |y|);
    assert PairsUpTo(s, 1) == map[] by { OneSkip(s); }
    assert map[] + AllPairs(y) == AllPairs(y);
  }

  lemma {:induction false} SkipBody(s: seq<Row>)
    requires s != [] && s[0] == Skip
    ensures Body(s, 0) == Body(s, 1)
  {
    assert [] + Body(s, 1) == Body(s, 1);
  }

  lemma {:induction false} OneSkip(s: seq<Row>)
    requires s != [] && s[0] == Skip
    ensures PairsUpTo(s, 1) == map[]
  {
    assert PairsUpTo(s, 0) == map[];
  }

  /** Rows from an assignment on leave the meaning of the rows before it alone. */
  lemma {:induction false} PairsJoin(x: seq<Row>, y: seq<Row>)
    requires y == [] || y[0].Assign?
    ensures AllPairs(x + y) == AllPairs(x) + AllPairs(y)
  {
    hide PairsUpTo;
    assert Body(y, 0) == [];
    assert Body([], 0) == [];
    PairsHead(x, y, [], |x|);
    assert x + [] == x;
    PairsTail(x, y, |y|);
  }

  // ----- the reader breaks lines at every carriage return ------------------------------------------------------------

  /** The rows between line ends of either kind; CRLF only gives one row more to skip. */
  function FineRows(text: string): seq<Row> { TextRows(ReplaceCr(text)) }

  lemma {:induction false} FineAt(first: string, rest: string)
    ensures FineRows(first + "\n" + rest) == FineRows(first) + FineRows(rest)
    ensures FineRows(first + "\r" + rest) == FineRows(first) + FineRows(rest)
  {
    hide ReplaceCr, SplitNl, Rows;
    CrConcat(first + "\n", rest);
    CrConcat(first, "\n");
    CrConcat(first + "\r", rest);
    CrConcat(first, "\r");
    Breaks();
    SplitAtNl(ReplaceCr(first), ReplaceCr(rest));
    RowsConcat(SplitNl(ReplaceCr(first)), SplitNl(ReplaceCr(rest)));
  }

  lemma {:induction false} Breaks()
    ensures ReplaceCr("\n") == "\n" && ReplaceCr("\r") == "\n" && ReplaceCr("") == ""
  {
  }

  lemma {:induction false} FineEmpty()
    ensures FineRows("") == [Skip]
  {
    Breaks();
    OneLine("");
    EmptyLine();
    assert Rows([""]) == [Classify("")];
  }

  lemma {:induction false} ReadLine(first: string, rest: string)
    requires '\n' !in first
    ensures Rows(Lines(first + "\r\n" + rest)) == FineRows(first) + Rows(Lines(rest))
    ensures first == "" || first[|first| - 1] != '\r' ==> Rows(Lines(first + "\n" + rest)) == FineRows(first) + Rows(Lines(rest))
  {
    hide Rows, Lines, SplitNl, ReplaceCr;
    LinesAt(first, rest);
    RowsConcat(SplitNl(ReplaceCr(first)), Lines(rest));
  }

  lemma {:induction false} NoCrLfInLine(text: string)
    requires '\n' !in text
    ensures ReplaceCrLf(text) == text
  {
    if text != "" { NoCrLfInLine(text[1..]); }
  }

  /** Whatever comes before, a text means what its rows between all line ends mean. */
  lemma {:induction false} FineAfter(x: seq<Row>, text: string)
    ensures AllPairs(x + Rows(Lines(text))) == AllPairs(x + FineRows(text))
    decreases |text|
  {
    hide AllPairs, Rows, Lines, FineRows, IndexOf;
    var n := IndexOf(text, '\n');
    if n == |text| {
      OneFineLine(text);
    } else {
      var first, rest := text[..n], text[n + 1..];
      assert text == first + "\n" + rest;
      FineAt(first, rest);
      if first != "" && first[|first| - 1] == '\r' {
        var f := first[..|first| - 1];
        assert first == f + "\r" + "" && text == f + "\r\n" + rest;
        ReadLine(f, rest);
        FineAt(f, "");
        FineEmpty();
        var y := x + FineRows(f);
        FineAfter(y, rest);
        SkipInside(y, FineRows(rest));
        assert x + (FineRows(f) + Rows(Lines(rest))) == y + Rows(Lines(rest));
        assert x + ((FineRows(f) + [Skip]) + FineRows(rest)) == y + ([Skip] + FineRows(rest));
      } else {
        ReadLine(first, rest);
        FineAfter(x + FineRows(first), rest);
        assert x + (FineRows(first) + Rows(Lines(rest))) == (x + FineRows(first)) + Rows(Lines(rest));
        assert x + (FineRows(first) + FineRows(rest)) == (x + FineRows(first)) + FineRows(rest);
      }
    }
  }

  lemma {:induction false} OneFineLine(text: string)
    requires '\n' !in text
    ensures Rows(Lines(text)) == FineRows(text)
  {
    NoCrLfInLine(text);
  }

  lemma {:induction false} MeansFineRows(text: string)
    ensures Pairs(text) == AllPairs(FineRows(text))
  {
    hide FineRows, Rows, Lines, PairsUpTo;
    FineAfter([], text);
    assert [] + Rows(Lines(text)) == Rows(Lines(text)) && [] + FineRows(text) == FineRows(text);
  }

  // ----- the parts of a text around the matched line -----------------------------------------------------------------

  /** The rows before a line start, and the rows after a line end. */
  function HeadRows(head: string): seq<Row> { if head == "" then [] else FineRows(head[..|head| - 1]) }

  function TailRows(tail: string): seq<Row> { if tail == "" then [] else FineRows(tail[1..]) }

  lemma {:induction false} RowsAround(head: string, mid: string, tail: string)
    requires head == "" || head[|head| - 1] == '\n'
    requires tail == "" || tail[0] == '\n'
    ensures FineRows(head + mid + tail) == HeadRows(head) + FineRows(mid) + TailRows(tail)
  {
    hide FineRows;
    var t := mid + tail;
    if tail == "" {
      assert t == mid;
    } else {
      assert t == mid + "\n" + tail[1..];
      FineAt(mid, tail[1..]);
    }
    assert FineRows(t) == FineRows(mid) + TailRows(tail);
    if head == "" {
      assert head + mid + tail == t;
    } else {
      var h := head[..|head| - 1];
      assert head + mid + tail == h + "\n" + t;
      FineAt(h, t);
    }
  }

  function LineEnd(text: string, p: nat): nat
    requires p <= |text|
  {
    p + IndexOf(text[p..], '\n')
  }

  /** The rows before the matched line, those the reader finds within it, and those after it. */
  function Before(text: string, p: nat): seq<Row>
    requires p <= |text|
  {
    HeadRows(text[..p])
  }

  function Within(text: string, p: nat): seq<Row>
    requires p <= |text|
  {
    FineRows(text[p..LineEnd(text, p)])
  }

  function Behind(text: string, p: nat): seq<Row>
    requires p <= |text|
  {
    TailRows(text[LineEnd(text, p)..])
  }

  /** What the rows within the matched line assign. */
  function Hidden(text: string, p: nat): map<string, string>
    requires p <= |text|
  {
    PairsUpTo(Within(text, p) + Behind(text, p), |Within(text, p)|)
  }

  lemma {:induction false} TextAround(text: string, p: nat)
    requires p <= |text| && (p == 0 || text[p - 1] == '\n')
    ensures FineRows(text) == Before(text, p) + Within(text, p) + Behind(text, p)
  {
    hide FineRows, IndexOf;
    var e := LineEnd(text, p);
    assert text[p..][e - p..] == text[e..];
    assert text == text[..p] + text[p..e] + text[e..];
    RowsAround(text[..p], text[p..e], text[e..]);
  }

  lemma {:induction false} SplicedAround(text: string, p: nat, line: string)
    requires p <= |text| && (p == 0 || text[p - 1] == '\n')
    ensures FineRows(Splice(text, p, line)) == Before(text, p) + FineRows(line) + Behind(text, p)
  {
    hide FineRows, IndexOf;
    var e := LineEnd(text, p);
    assert e < |text| ==> text[e] == '\n';
    RowsAround(text[..p], line, text[e..]);
  }

  /** The first row within the matched line assigns the key. */
  lemma {:induction false} WithinAssigns(text: string, p: nat, key: string)
    requires p <= |text| && IsKey(key) && key + "=" <= text[p..]
    ensures Within(text, p) != [] && IsFlush(Within(text, p)[0], key)
  {
    hide Classify, SplitNl;
    var prefix := key + "=";
    KeyIsOneLine(key);
    var s := text[p..];
    var n := IndexOf(s, '\n');
    PrefixInLine(s, prefix);
    var mid := s[..n];
    assert mid == text[p..LineEnd(text, p)];
    assert prefix <= ReplaceCr(mid);
    FirstLineHas(ReplaceCr(mid), prefix);
    FlushLine(SplitNl(ReplaceCr(mid))[0], key);
  }

  lemma {:induction false} KeyIsOneLine(key: string)
    requires IsKey(key)
    ensures '\n' !in key + "=" && '\r' !in key + "="
  {
  }

  lemma {:induction false} PrefixInLine(s: string, prefix: string)
    requires prefix <= s && '\n' !in prefix
    ensures prefix <= s[..IndexOf(s, '\n')]
  {
    var n := IndexOf(s, '\n');
    assert forall i | 0 <= i < |prefix| :: prefix[i] == s[i] && prefix[i] != '\n';
  }

  lemma {:induction false} FirstLineHas(s: string, prefix: string)
    requires prefix <= s && '\n' !in prefix
    ensures SplitNl(s) != [] && prefix <= SplitNl(s)[0]
  {
    var n := IndexOf(s, '\n');
    if n == |s| {
      OneLine(s);
    } else {
      assert s == s[..n] + "\n" + s[n + 1..];
      SplitCons(s[..n], s[n + 1..]);
      PrefixInLine(s, prefix);
    }
  }

  // ----- exactly what a rewrite does to any text ---------------------------------------------------------------------

  /** Replacing the matched line keeps what is before and behind it, sets the key, and drops what the line hid. */
  lemma {:induction false} ReplaceAnyText(text: string, key: string, value: string, p: nat)
    requires IsKey(key) && PlainValue(value) && Search(text, key + "=") == Some(p)
    ensures p <= |text|
    ensures Pairs(text) == AllPairs(Before(text, p)) + Hidden(text, p) + AllPairs(Behind(text, p))
    ensures Pairs(ReplaceKey(text, key, value)) == AllPairs(Before(text, p))[key := value] + AllPairs(Behind(text, p))
  {
    hide Search, Pairs, AllPairs, Before, Within, Behind, Splice, IsKey, Classify;
    FoundAtLineStart(text, key + "=");
    var line := key + "=" + value;
    MeansFineRows(text);
    MeansFineRows(Splice(text, p, line));
    TextAround(text, p);
    SplicedAround(text, p, line);
    WithinAssigns(text, p, key);
    FineOfLine(key, value);
    JoinHidden(Before(text, p), Within(text, p), Behind(text, p));
    JoinAssigned(Before(text, p), Behind(text, p), key, value);
  }

  lemma {:induction false} FineOfLine(key: string, value: string)
    requires IsKey(key) && PlainValue(value)
    ensures FineRows(key + "=" + value) == [Assign(key, value, true)]
  {
    hide Classify, PlainValue, IsKey;
    var line := key + "=" + value;
    RewrittenLine(key, value);
    NoCr(line);
    OneLine(line);
    assert Rows([line]) == [Classify(line)];
  }

  lemma {:induction false} JoinHidden(a: seq<Row>, w: seq<Row>, b: seq<Row>)
    requires w != [] && w[0].Assign?
    ensures AllPairs(a + w + b) == AllPairs(a) + PairsUpTo(w + b, |w|) + AllPairs(b)
  {
    hide PairsUpTo;
    assert a + w + b == a + (w + b);
    PairsJoin(a, w + b);
    PairsTail(w, b, |b|);
    Associative(AllPairs(a), PairsUpTo(w + b, |w|), AllPairs(b));
  }

  lemma Associative(a: map<string, string>, b: map<string, string>, c: map<string, string>)
    ensures a + (b + c) == a + b + c
  {}

  lemma {:induction false} JoinAssigned(a: seq<Row>, b: seq<Row>, key: string, value: string)
    requires value != ""
    ensures AllPairs(a + [Assign(key, value, true)] + b) == AllPairs(a)[key := value] + AllPairs(b)
  {
    hide Body, JoinSpace, Strip;
    var r := [Assign(key, value, true)];
    var y := r + b;
    assert a + r + b == a + y && y[0] == r[0];
    PairsJoin(a, y);
    PairsTail(r, b, |b|);
    assert PairsUpTo(y, 0) == map[];
    assert PairsUpTo(y, 1) == map[key := value];
    Associative(AllPairs(a), map[key := value], AllPairs(b));
    assert AllPairs(a) + map[key := value] == AllPairs(a)[key := value];
  }

  /** Appending is exact for every text. */
  lemma {:induction false} AppendAnyText(text: string, key: string, value: string)
    requires IsKey(key) && PlainValue(value) && Search(text, key + "=").None?
    ensures Pairs(ReplaceKey(text, key, value)) == Pairs(text)[key := value]
  {
    hide Search, Pairs, AllPairs, FineRows, RStrip, IsKey, PlainValue, Classify;
    var base, line := RStrip(text), key + "=" + value;
    var now := base + "\n" + line + "\n";
    MeansFineRows(text);
    MeansFineRows(now);
    var w := text[|base|..];
    assert text == base + w;
    FineBlanks(base, w);
    FineAppended(base, key, value);
  }

  lemma {:induction false} FineBlanks(base: string, w: string)
    requires Blank(w)
    ensures AllPairs(FineRows(base + w)) == AllPairs(FineRows(base))
  {
    hide AllPairs, TextRows, IsSpace;
    CrConcat(base, w);
    CrIsSpace();
    assert Blank(ReplaceCr(w));
    TrailingBlanks(ReplaceCr(base), ReplaceCr(w));
    var all, n := FineRows(base + w), |FineRows(base)|;
    assert all == FineRows(base) + all[n..];
    SkippedPairs(FineRows(base), all[n..]);
  }

  lemma {:induction false} FineAppended(base: string, key: string, value: string)
    requires IsKey(key) && PlainValue(value)
    ensures AllPairs(FineRows(base + "\n" + (key + "=" + value) + "\n")) == AllPairs(FineRows(base))[key := value]
  {
    hide AllPairs, FineRows, IsKey, Classify;
    var line := key + "=" + value;
    assert base + "\n" + line + "\n" == base + "\n" + (line + "\n" + "");
    FineAt(base, line + "\n" + "");
    FineAt(line, "");
    FineOfLine(key, value);
    FineEmpty();
    assert FineRows(base) + ([Assign(key, value, true)] + [Skip]) == FineRows(base) + [Assign(key, value, true), Skip];
    AppendedPairs(FineRows(base), key, value);
  }

  /**
   * What a rewrite of a text needs: nothing behind the matched line gives the key another value, and no key that the
   * line hides matters, because it is assigned again behind the line or has the same value before it.
   */
  predicate Harmless(text: string, key: string, value: string) {
    match Search(text, key + "=")
    case None => true
    case Some(p) =>
      var before, hidden, behind := AllPairs(Before(text, p)), Hidden(text, p), AllPairs(Behind(text, p));
      && (key in behind ==> behind[key] == value)
      && forall k | k in hidden :: k == key || k in behind || (k in before && before[k] == hidden[k])
  }

  lemma {:induction false} MergeExact(a: map<string, string>, h: map<string, string>, b: map<string, string>, key: string,
                                      value: string)
    ensures a[key := value] + b == (a + h + b)[key := value] <==>
      (key in b ==> b[key] == value) && forall k | k in h :: k == key || k in b || (k in a && a[k] == h[k])
  {
    var x, y := a[key := value] + b, (a + h + b)[key := value];
    if x == y {
      if key in b { assert x[key] == b[key]; }
      forall k | k in h && k != key && k !in b ensures k in a && a[k] == h[k] {
        assert k in y && y[k] == h[k];
        assert k in x && x[k] == a[k];
      }
    }
  }

  /** For every text: the rewrite sets exactly its key if and only if that holds. */
  lemma {:induction false} RewriteAnyIff(text: string, key: string, value: string)
    requires IsKey(key) && PlainValue(value)
    ensures Pairs(ReplaceKey(text, key, value)) == Pairs(text)[key := value] <==> Harmless(text, key, value)
  {
    hide Pairs, AllPairs, Before, Behind, Hidden, ReplaceKey, Search, IsKey, PlainValue;
    match Search(text, key + "=")
    case None => AppendAnyText(text, key, value);
    case Some(p) =>
      ReplaceAnyText(text, key, value, p);
      MergeExact(AllPairs(Before(text, p)), Hidden(text, p), AllPairs(Behind(text, p)), key, value);
  }
}
