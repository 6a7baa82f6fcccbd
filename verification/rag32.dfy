/**
 * The RAG32 record reader: records are framed by marker lines but delimited by a byte count,
 * so payload bytes that look like markers are data.
 */
module Rag32 {
  import opened PyText

  type Byte = b: int | 0 <= b < 256
  type Bytes = seq<Byte>

  const NL: Byte := 10

  function Ascii(s: string): (r: Bytes)
    ensures |r| == |s| && forall i | 0 <= i < |s| :: r[i] == s[i] as int % 256
  {
    seq(|s|, i requires 0 <= i < |s| => (s[i] as int % 256) as Byte)
  }

  const BEGIN := Ascii("LION_RECORD_BEGIN: ")
  const META := Ascii("LION_RECORD_META: ")
  const FENCE := Ascii("````")
  const CLOSE := Ascii("\n````\nLION_RECORD_END: ")

  /** The fields of a record's JSON metadata that the tool looks at; absent or wrongly typed ones are `None`. */
  datatype Meta = Meta(size: Option<int>, sourceId: Option<string>, virtualPath: Option<string>, sha256: Option<string>)

  /** UTF-8 and JSON: `decodeId` decodes and strips an id line, `encodeId` encodes, `parseMeta` parses a metadata line. */
  datatype Codec = Codec(decodeId: Bytes -> Option<string>, encodeId: string -> Bytes, parseMeta: Bytes -> Option<Meta>)

  datatype Record = Record(id: string, meta: Meta, payload: Bytes, block: Bytes)

  datatype Fault = BadId | NoMeta | OpenMetaLine | BadMeta | BadSize | NoFence | Truncated | NoClose

  // ----- the frame printer: what a record looks like ----------------------------------------------------------------

  datatype Entry = Entry(idLine: Bytes, metaLine: Bytes, fence: Bytes, payload: Bytes)

  predicate ValidEntry(c: Codec, e: Entry) {
    && e.idLine != [] && NL !in e.idLine && c.decodeId(e.idLine).Some?
    && ValidBelow(c, e)
  }

  predicate ValidBelow(c: Codec, e: Entry) {
    && NL !in e.metaLine && c.parseMeta(e.metaLine).Some?
    && c.parseMeta(e.metaLine).value.size == Some(|e.payload|)
    && NL !in e.fence && FENCE <= e.fence
  }

  function Closing(c: Codec, idLine: Bytes): Bytes
    requires c.decodeId(idLine).Some?
  {
    CLOSE + c.encodeId(c.decodeId(idLine).value)
  }

  /** The bytes of one framed record, up to and including its end marker: the begin line and what follows it. */
  function Frame(c: Codec, e: Entry): Bytes
    requires ValidEntry(c, e)
  {
    BEGIN + (e.idLine + [NL] + MetaPart(c, e))
  }

  function MetaPart(c: Codec, e: Entry): Bytes
    requires c.decodeId(e.idLine).Some?
  {
    META + (e.metaLine + [NL] + PayloadPart(c, e))
  }

  function PayloadPart(c: Codec, e: Entry): Bytes
    requires c.decodeId(e.idLine).Some?
  {
    e.fence + [NL] + (e.payload + Closing(c, e.idLine))
  }

  /** A document: every record follows a gap of other text, and a tail follows the last record. */
  datatype Piece = Piece(gap: Bytes, entry: Entry)

  function Doc(c: Codec, pieces: seq<Piece>, tail: Bytes): Bytes
    requires forall i | 0 <= i < |pieces| :: ValidEntry(c, pieces[i].entry)
  {
    if pieces == [] then tail
    else
      assert ValidEntry(c, pieces[0].entry);
      pieces[0].gap + (Frame(c, pieces[0].entry) + Doc(c, pieces[1..], tail))
  }

  // ----- finding a begin line ----------------------------------------------------------------------------------------

  function FindNl(s: Bytes, i: nat): (n: nat)
    requires i <= |s|
    ensures i <= n <= |s| && (n < |s| ==> s[n] == NL) && forall j | i <= j < n :: s[j] != NL
    decreases |s| - i
  {
    if i == |s| || s[i] == NL then i else FindNl(s, i + 1)
  }

  /** The pattern `(?m)^LION_RECORD_BEGIN: ([^\n]+)\n` matches at `k`; `bol` says whether `s` starts at a line start. */
  predicate BeginAt(bol: bool, s: Bytes, k: nat) {
    && k + |BEGIN| <= |s|
    && (if k == 0 then bol else s[k - 1] == NL)
    && s[k..k + |BEGIN|] == BEGIN
    && k + |BEGIN| < FindNl(s, k + |BEGIN|) < |s|
  }

  /** The first match at or after `k`, or the length of `s`. */
  function NextBegin(bol: bool, s: Bytes, k: nat): (n: nat)
    requires k <= |s|
    ensures k <= n <= |s| && (n < |s| ==> BeginAt(bol, s, n))
    ensures forall j | k <= j < n :: !BeginAt(bol, s, j)
    decreases |s| - k
  {
    if k == |s| || BeginAt(bol, s, k) then k else NextBegin(bol, s, k + 1)
  }

  ghost predicate NoBegin(bol: bool, s: Bytes) {
    forall k: nat | k < |s| :: !BeginAt(bol, s, k)
  }

  /** The text ends at a line start. */
  predicate EndsLine(bol: bool, s: Bytes) {
    if s == [] then bol else s[|s| - 1] == NL
  }

  /** No begin line outside the frames, and every frame starts a line. */
  ghost predicate Separated(c: Codec, bol: bool, pieces: seq<Piece>, tail: Bytes)
    decreases |pieces|
  {
    if pieces == [] then NoBegin(bol, tail)
    else
      && ValidEntry(c, pieces[0].entry)
      && NoBegin(bol, pieces[0].gap) && EndsLine(bol, pieces[0].gap)
      && Separated(c, EndsWithNl(c, pieces[0].entry), pieces[1..], tail)
  }

  // ----- the reader --------------------------------------------------------------------------------------------------

  datatype Parsed = Bad(fault: Fault) | Good(entry: Entry, rest: Bytes)

  /** Split at the first newline; nothing when there is none. */
  function CutLine(s: Bytes): (r: Option<(Bytes, Bytes)>)
    ensures r.Some? ==> NL !in r.value.0 && s == r.value.0 + [NL] + r.value.1
    ensures r.None? ==> NL !in s
  {
    var n := FindNl(s, 0);
    if n == |s| then None else Some((s[..n], s[n + 1..]))
  }

  lemma {:induction false} Regroup(head: Bytes, line: Bytes, part: Bytes, rest: Bytes, s: Bytes)
    requires head <= s && s[|head|..] == line + [NL] + (part + rest)
    ensures s == head + (line + [NL] + part) + rest
  {
    assert s == head + s[|head|..];
  }

  /** One pass of the loop body of `_records`, from the begin marker on. */
  function ParseFrame(c: Codec, s: Bytes): (p: Parsed)
    requires BeginAt(true, s, 0)
    ensures p.Good? ==> ValidEntry(c, p.entry) && s == Frame(c, p.entry) + p.rest && |p.rest| < |s|
  {
    assert s[0..|BEGIN|] == s[..|BEGIN|];
    match CutLine(s[|BEGIN|..])
    case None => Bad(BadId)
    case Some((idLine, r)) =>
      if c.decodeId(idLine).None? then Bad(BadId)
      else
        hide MetaPart, ParseMeta;
        var p := ParseMeta(c, idLine, r);
        if p.Good? then Regroup(BEGIN, idLine, MetaPart(c, p.entry), p.rest, s); p else p
  }

  function ParseMeta(c: Codec, idLine: Bytes, r: Bytes): (p: Parsed)
    requires c.decodeId(idLine).Some?
    ensures p.Good? ==> p.entry.idLine == idLine && ValidBelow(c, p.entry) && r == MetaPart(c, p.entry) + p.rest
  {
    if !(META <= r) then Bad(NoMeta)
    else
      match CutLine(r[|META|..])
      case None => Bad(OpenMetaLine)
      case Some((metaLine, r')) =>
        if c.parseMeta(metaLine).None? then Bad(BadMeta)
        else
          var size := c.parseMeta(metaLine).value.size;
          if size.None? || size.value < 0 then Bad(BadSize)
          else
            hide PayloadPart, ParsePayload;
            var p := ParsePayload(c, idLine, metaLine, size.value, r');
            if p.Good? then Regroup(META, metaLine, PayloadPart(c, p.entry), p.rest, r); p else p
  }

  function ParsePayload(c: Codec, idLine: Bytes, metaLine: Bytes, size: nat, r: Bytes): (p: Parsed)
    requires c.decodeId(idLine).Some?
    ensures p.Good? ==>
              && p.entry.idLine == idLine && p.entry.metaLine == metaLine && |p.entry.payload| == size
              && NL !in p.entry.fence && FENCE <= p.entry.fence && r == PayloadPart(c, p.entry) + p.rest
  {
    match CutLine(r)
    case None => Bad(NoFence)
    case Some((fence, r')) =>
      if !(FENCE <= fence) then Bad(NoFence)
      else if size > |r'| then Bad(Truncated)
      else
        var close := Closing(c, idLine);
        if !(close <= r'[size..]) then Bad(NoClose)
        else
          assert r' == r'[..size] + close + r'[size + |close|..];
          Good(Entry(idLine, metaLine, fence, r'[..size]), r'[size + |close|..])
  }

  datatype Reading = Reading(records: seq<Record>, fault: Option<Fault>)

  predicate SkipsNl(rest: Bytes) { rest != [] && rest[0] == NL }

  function RecordOf(c: Codec, e: Entry, rest: Bytes): Record
    requires ValidEntry(c, e)
  {
    Record(c.decodeId(e.idLine).value, c.parseMeta(e.metaLine).value, e.payload,
           Frame(c, e) + if SkipsNl(rest) then [NL] else [])
  }

  /** Everything the reader yields from `s`, and the fault it stops on, if any. */
  function ReadFrom(c: Codec, bol: bool, s: Bytes): Reading
    decreases |s|
  {
    var k := NextBegin(bol, s, 0);
    if k == |s| then Reading([], None)
    else
      hide ParseFrame, ValidEntry, Frame;
      BeginShift(bol, s, k);
      match ParseFrame(c, s[k..])
      case Bad(f) => Reading([], Some(f))
      case Good(e, rest) =>
        var skip := SkipsNl(rest);
        var tail := ReadFrom(c, skip || EndsWithNl(c, e), if skip then rest[1..] else rest);
        Reading([RecordOf(c, e, rest)] + tail.records, tail.fault)
  }

  /** Whether a frame leaves the reader at a line start. */
  predicate EndsWithNl(c: Codec, e: Entry)
    requires ValidEntry(c, e)
  {
    EndsLine(true, Frame(c, e))
  }

  lemma {:induction false} FindNlShift(a: Bytes, s: Bytes, i: nat)
    requires i <= |s|
    ensures FindNl(a + s, |a| + i) == |a| + FindNl(s, i)
    decreases |s| - i
  {
    if i < |s| {
      assert (a + s)[|a| + i] == s[i];
      if s[i] != NL {
        FindNlShift(a, s, i + 1);
      }
    }
  }

  lemma {:induction false} BeginShift(bol: bool, s: Bytes, k: nat)
    requires BeginAt(bol, s, k)
    ensures BeginAt(true, s[k..], 0)
  {
    assert s == s[..k] + s[k..];
    FindNlShift(s[..k], s[k..], |BEGIN|);
    assert s[k..][0..|BEGIN|] == s[k..k + |BEGIN|];
  }

  // ----- the reader inverts the printer ------------------------------------------------------------------------------

  lemma {:induction false} CutLineOf(line: Bytes, rest: Bytes)
    requires NL !in line
    ensures CutLine(line + [NL] + rest) == Some((line, rest))
  {
    hide FindNl;
    var s := line + [NL] + rest;
    assert s[|line|] == NL && forall j | 0 <= j < |line| :: s[j] == line[j];
    assert FindNl(s, 0) == |line|;
    assert s[..|line|] == line && s[|line| + 1..] == rest;
  }

  lemma {:induction false} ParsePayloadOf(c: Codec, e: Entry, rest: Bytes)
    requires ValidEntry(c, e)
    ensures ParsePayload(c, e.idLine, e.metaLine, |e.payload|, PayloadPart(c, e) + rest) == Good(e, rest)
  {
    hide CutLine, Closing;
    var close := Closing(c, e.idLine);
    var r := e.payload + close + rest;
    assert PayloadPart(c, e) + rest == e.fence + [NL] + r;
    CutLineOf(e.fence, r);
    assert r[..|e.payload|] == e.payload && r[|e.payload|..] == close + rest;
    assert r[|e.payload| + |close|..] == rest;
  }

  lemma {:induction false} ParseMetaOf(c: Codec, e: Entry, rest: Bytes)
    requires ValidEntry(c, e)
    ensures ParseMeta(c, e.idLine, MetaPart(c, e) + rest) == Good(e, rest)
  {
    hide CutLine, ParsePayload, PayloadPart;
    var part := PayloadPart(c, e) + rest;
    var r := e.metaLine + [NL] + part;
    assert MetaPart(c, e) + rest == META + r;
    assert (META + r)[|META|..] == r;
    CutLineOf(e.metaLine, part);
    ParsePayloadOf(c, e, rest);
  }

  lemma {:induction false} ParseFrameOf(c: Codec, e: Entry, rest: Bytes)
    requires ValidEntry(c, e)
    ensures BeginAt(true, Frame(c, e) + rest, 0) && ParseFrame(c, Frame(c, e) + rest) == Good(e, rest)
  {
    hide CutLine, ParseMeta, MetaPart, FindNl;
    var part := MetaPart(c, e) + rest;
    var r := e.idLine + [NL] + part;
    var s := Frame(c, e) + rest;
    assert s == BEGIN + r;
    FrameBegins(e.idLine, part);
    assert s[|BEGIN|..] == r;
    CutLineOf(e.idLine, part);
    ParseMetaOf(c, e, rest);
  }

  lemma {:induction false} FrameBegins(idLine: Bytes, part: Bytes)
    requires NL !in idLine && idLine != []
    ensures BeginAt(true, BEGIN + (idLine + [NL] + part), 0)
  {
    hide FindNl;
    var r := idLine + [NL] + part;
    var s := BEGIN + r;
    assert s[0..0 + |BEGIN|] == BEGIN;
    assert s[|BEGIN| + |idLine|] == NL;
    assert forall j | |BEGIN| <= j < |BEGIN| + |idLine| :: s[j] == idLine[j - |BEGIN|];
    assert FindNl(s, |BEGIN|) == |BEGIN| + |idLine|;
  }

  lemma {:induction false} BeginHasNoNl()
    ensures NL !in BEGIN && 0 < |BEGIN| && BEGIN[0] != NL
  {
  }

  /** A begin line inside a gap that ends a line does not depend on what follows the gap. */
  lemma {:induction false} BeginInGap(bol: bool, gap: Bytes, t: Bytes, k: nat)
    requires k < |gap| && gap[|gap| - 1] == NL && BeginAt(bol, gap + t, k)
    ensures BeginAt(bol, gap, k)
  {
    hide FindNl;
    BeginHasNoNl();
    var s := gap + t;
    var b := k + |BEGIN|;
    assert forall i | 0 <= i < |gap| :: s[i] == gap[i];
    assert forall i | k <= i < b :: s[i] == s[k..b][i - k];
    assert b <= |gap| - 1;
    assert gap[k..b] == s[k..b];
    assert FindNl(s, b) == FindNl(gap, b);
  }

  lemma {:induction false} NextAfterGap(bol: bool, gap: Bytes, t: Bytes)
    requires NoBegin(bol, gap) && EndsLine(bol, gap) && BeginAt(true, t, 0)
    ensures NextBegin(bol, gap + t, 0) == |gap|
  {
    hide NextBegin, FindNl;
    var s := gap + t;
    var n := NextBegin(bol, s, 0);
    assert BeginAt(bol, s, |gap|) by {
      FindNlShift(gap, t, |BEGIN|);
      assert s[|gap|..|gap| + |BEGIN|] == t[0..0 + |BEGIN|];
    }
    if n < |gap| {
      BeginInGap(bol, gap, t, n);
      assert false;
    }
  }

  lemma {:induction false} NoBeginAtNl(b: bool, s: Bytes)
    requires SkipsNl(s)
    ensures !BeginAt(b, s, 0)
  {
    hide FindNl;
    BeginHasNoNl();
    if |BEGIN| <= |s| { assert s[0..|BEGIN|][0] == NL; }
  }

  lemma {:induction false} BeginAfterNl(b: bool, s: Bytes, k: nat)
    requires SkipsNl(s) && k + 1 < |s|
    ensures BeginAt(b, s, k + 1) == BeginAt(true, s[1..], k)
  {
    hide FindNl;
    var t := s[1..];
    assert s == s[..1] + t;
    if k + |BEGIN| <= |t| {
      FindNlShift(s[..1], t, k + |BEGIN|);
      assert s[k + 1..k + 1 + |BEGIN|] == t[k..k + |BEGIN|];
    }
  }

  lemma {:induction false} NextAfterNl(b: bool, s: Bytes)
    requires SkipsNl(s)
    ensures NextBegin(b, s, 0) == 1 + NextBegin(true, s[1..], 0)
  {
    hide NextBegin, BeginAt;
    NoBeginAtNl(b, s);
    var n, m := NextBegin(b, s, 0), NextBegin(true, s[1..], 0);
    if m < |s| - 1 { BeginAfterNl(b, s, m); }
    if 0 < n < |s| { BeginAfterNl(b, s, n - 1); }
  }

  /** The newline that the reader may step over makes no difference to what it finds. */
  lemma {:induction false} SteppingOverNl(c: Codec, b: bool, s: Bytes)
    requires SkipsNl(s)
    ensures ReadFrom(c, b, s) == ReadFrom(c, true, s[1..])
  {
    hide NextBegin, ParseFrame, BeginAt, RecordOf;
    NextAfterNl(b, s);
    var k := NextBegin(true, s[1..], 0);
    assert s[1..][k..] == s[k + 1..];
  }

  lemma {:induction false} SeparatedValid(c: Codec, bol: bool, pieces: seq<Piece>, tail: Bytes)
    requires Separated(c, bol, pieces, tail)
    ensures forall i | 0 <= i < |pieces| :: ValidEntry(c, pieces[i].entry)
    decreases |pieces|
  {
    hide ValidEntry, NoBegin, EndsLine;
    if pieces != [] {
      SeparatedValid(c, EndsWithNl(c, pieces[0].entry), pieces[1..], tail);
      assert forall i | 1 <= i < |pieces| :: pieces[i] == pieces[1..][i - 1];
    }
  }

  /** The records a document holds: one per piece, in order. */
  function RecordsOf(c: Codec, pieces: seq<Piece>, tail: Bytes): (r: seq<Record>)
    requires forall i | 0 <= i < |pieces| :: ValidEntry(c, pieces[i].entry)
    ensures |r| == |pieces|
  {
    if pieces == [] then []
    else
      assert ValidEntry(c, pieces[0].entry);
      [RecordOf(c, pieces[0].entry, Doc(c, pieces[1..], tail))] + RecordsOf(c, pieces[1..], tail)
  }

  /** The fields of a record: what its entry holds, and the frame with the newline that follows it, if one does. */
  ghost predicate RecordIs(c: Codec, r: Record, e: Entry, following: Bytes)
    requires ValidEntry(c, e)
  {
    && r.id == c.decodeId(e.idLine).value
    && r.meta == c.parseMeta(e.metaLine).value
    && r.payload == e.payload
    && r.block == Frame(c, e) + (if following != [] && following[0] == NL then [NL] else [])
  }

  lemma {:induction false} RecordsAre(c: Codec, pieces: seq<Piece>, tail: Bytes, i: nat)
    requires (forall k | 0 <= k < |pieces| :: ValidEntry(c, pieces[k].entry)) && i < |pieces|
    ensures RecordIs(c, RecordsOf(c, pieces, tail)[i], pieces[i].entry, Doc(c, pieces[i + 1..], tail))
  {
    hide ValidEntry, Frame, Doc;
    if i > 0 {
      RecordsAre(c, pieces[1..], tail, i - 1);
      assert pieces[1..][i - 1 + 1..] == pieces[i + 1..];
    }
  }

  /** A text without the newline that a block before it has taken. */
  ghost function Rest(taken: bool, s: Bytes): Bytes {
    if taken && s != [] && s[0] == NL then s[1..] else s
  }

  /** Gaps, blocks and tail one after the other; a newline right after a frame stands in its block. */
  ghost function Tiles(after: bool, pieces: seq<Piece>, records: seq<Record>, tail: Bytes): Bytes
    requires |records| == |pieces|
    decreases |pieces|
  {
    if pieces == [] then Rest(after, tail)
    else Rest(after, pieces[0].gap) + (records[0].block + Tiles(true, pieces[1..], records[1..], tail))
  }

  lemma {:induction false} FrameHasNoLeadingNl(c: Codec, e: Entry)
    requires ValidEntry(c, e)
    ensures Frame(c, e) != [] && Frame(c, e)[0] != NL
  {
    BeginHasNoNl();
  }

  /** A printed document is made of its gaps, the blocks of its records and its tail. */
  lemma {:induction false} BlocksTile(c: Codec, after: bool, pieces: seq<Piece>, tail: Bytes)
    requires forall k | 0 <= k < |pieces| :: ValidEntry(c, pieces[k].entry)
    ensures Tiles(after, pieces, RecordsOf(c, pieces, tail), tail) == Rest(after, Doc(c, pieces, tail))
    decreases |pieces|
  {
    hide ValidEntry, Frame, RecordsOf, RecordOf;
    if pieces != [] {
      var gap, e, rest := pieces[0].gap, pieces[0].entry, Doc(c, pieces[1..], tail);
      assert ValidEntry(c, e);
      BlocksTile(c, true, pieces[1..], tail);
      RecordsAre(c, pieces, tail, 0);
      FrameHasNoLeadingNl(c, e);
      LaterRecords(c, pieces, tail);
      BlockThenRest(Frame(c, e), rest);
      GapFirst(after, gap, Frame(c, e) + rest);
    }
  }

  lemma {:induction false} LaterRecords(c: Codec, pieces: seq<Piece>, tail: Bytes)
    requires (forall k | 0 <= k < |pieces| :: ValidEntry(c, pieces[k].entry)) && pieces != []
    ensures RecordsOf(c, pieces, tail)[1..] == RecordsOf(c, pieces[1..], tail)
  {
    hide ValidEntry, Frame, RecordOf;
  }

  lemma {:induction false} BlockThenRest(frame: Bytes, rest: Bytes)
    ensures frame + (if rest != [] && rest[0] == NL then [NL] else []) + Rest(true, rest) == frame + rest
  {
  }

  lemma {:induction false} GapFirst(after: bool, gap: Bytes, t: Bytes)
    requires t != [] && t[0] != NL
    ensures Rest(after, gap + t) == Rest(after, gap) + t
  {
  }

  /** Reading a printed document yields exactly its records, whatever their payload bytes look like. */
  lemma {:induction false} ReadsDocument(c: Codec, bol: bool, pieces: seq<Piece>, tail: Bytes)
    requires Separated(c, bol, pieces, tail)
    ensures forall i | 0 <= i < |pieces| :: ValidEntry(c, pieces[i].entry)
    ensures ReadFrom(c, bol, Doc(c, pieces, tail)) == Reading(RecordsOf(c, pieces, tail), None)
    ensures var records := ReadFrom(c, bol, Doc(c, pieces, tail)).records;
      && |records| == |pieces|
      && forall i | 0 <= i < |pieces| :: RecordIs(c, records[i], pieces[i].entry, Doc(c, pieces[i + 1..], tail))
    decreases |pieces|
  {
    DocumentRead(c, bol, pieces, tail);
    forall i | 0 <= i < |pieces|
      ensures RecordIs(c, RecordsOf(c, pieces, tail)[i], pieces[i].entry, Doc(c, pieces[i + 1..], tail))
    {
      RecordsAre(c, pieces, tail, i);
    }
  }

  lemma {:induction false} DocumentRead(c: Codec, bol: bool, pieces: seq<Piece>, tail: Bytes)
    requires Separated(c, bol, pieces, tail)
    ensures forall i | 0 <= i < |pieces| :: ValidEntry(c, pieces[i].entry)
    ensures ReadFrom(c, bol, Doc(c, pieces, tail)) == Reading(RecordsOf(c, pieces, tail), None)
    decreases |pieces|
  {
    hide NextBegin, ParseFrame, BeginAt, RecordOf, ValidEntry, Frame, NoBegin, EndsLine, EndsWithNl;
    SeparatedValid(c, bol, pieces, tail);
    var s := Doc(c, pieces, tail);
    if pieces == [] {
      NothingToRead(bol, tail);
    } else {
      var gap, e, rest := pieces[0].gap, pieces[0].entry, Doc(c, pieces[1..], tail);
      var t := Frame(c, e) + rest;
      ParseFrameOf(c, e, rest);
      NextAfterGap(bol, gap, t);
      assert s == gap + t && s[|gap|..] == t && |t| > 0 by { NotEmpty(t); }
      DocumentRead(c, EndsWithNl(c, e), pieces[1..], tail);
      if SkipsNl(rest) {
        SteppingOverNl(c, EndsWithNl(c, e), rest);
      }
    }
  }

  lemma {:induction false} NotEmpty(t: Bytes)
    requires BeginAt(true, t, 0)
    ensures |t| > 0
  {
  }

  lemma {:induction false} NothingToRead(bol: bool, s: Bytes)
    requires NoBegin(bol, s)
    ensures NextBegin(bol, s, 0) == |s|
  {
  }

  lemma {:induction false} GapBeforeNext(bol: bool, s: Bytes)
    requires NextBegin(bol, s, 0) < |s|
    ensures var gap := s[..NextBegin(bol, s, 0)]; NoBegin(bol, gap) && EndsLine(bol, gap)
  {
    hide NextBegin, FindNl;
    var n := NextBegin(bol, s, 0);
    var gap := s[..n];
    forall k: nat | k < n ensures !BeginAt(bol, gap, k) {
      if BeginAt(bol, gap, k) {
        assert s == gap + s[n..];
        BeginGrows(bol, gap, s[n..], k);
        assert false;
      }
    }
  }

  lemma {:induction false} BeginGrows(bol: bool, gap: Bytes, t: Bytes, k: nat)
    requires BeginAt(bol, gap, k)
    ensures BeginAt(bol, gap + t, k)
  {
    hide FindNl;
    var s, b := gap + t, k + |BEGIN|;
    assert s[k..b] == gap[k..b];
    assert forall i | 0 <= i < |gap| :: s[i] == gap[i];
    assert FindNl(gap, b) == FindNl(s, b);
  }

  /**
   * Whatever the reader accepts is a printed document of exactly the records it yields; gaps, the blocks of the records
   * and the tail make up the file one after the other.
   */
  lemma {:induction false} AcceptedIsDocument(c: Codec, bol: bool, s: Bytes) returns (pieces: seq<Piece>, tail: Bytes)
    requires ReadFrom(c, bol, s).fault.None?
    ensures Separated(c, bol, pieces, tail) && forall i | 0 <= i < |pieces| :: ValidEntry(c, pieces[i].entry)
    ensures s == Doc(c, pieces, tail) && ReadFrom(c, bol, s).records == RecordsOf(c, pieces, tail)
    ensures forall i | 0 <= i < |pieces| ::
      RecordIs(c, ReadFrom(c, bol, s).records[i], pieces[i].entry, Doc(c, pieces[i + 1..], tail))
    ensures s == Tiles(false, pieces, ReadFrom(c, bol, s).records, tail)
  {
    pieces, tail := DocumentFound(c, bol, s);
    forall i | 0 <= i < |pieces|
      ensures RecordIs(c, RecordsOf(c, pieces, tail)[i], pieces[i].entry, Doc(c, pieces[i + 1..], tail))
    {
      RecordsAre(c, pieces, tail, i);
    }
    BlocksTile(c, false, pieces, tail);
  }

  lemma {:induction false} DocumentFound(c: Codec, bol: bool, s: Bytes) returns (pieces: seq<Piece>, tail: Bytes)
    requires ReadFrom(c, bol, s).fault.None?
    ensures Separated(c, bol, pieces, tail) && forall i | 0 <= i < |pieces| :: ValidEntry(c, pieces[i].entry)
    ensures s == Doc(c, pieces, tail) && ReadFrom(c, bol, s).records == RecordsOf(c, pieces, tail)
    decreases |s|
  {
    hide NextBegin, ParseFrame, BeginAt, RecordOf, ValidEntry, Frame, NoBegin, EndsLine, EndsWithNl;
    var k := NextBegin(bol, s, 0);
    if k == |s| {
      pieces, tail := [], s;
      EndOfDocument(bol, s);
    } else {
      BeginShift(bol, s, k);
      GapBeforeNext(bol, s);
      var Good(e, rest) := ParseFrame(c, s[k..]);
      if SkipsNl(rest) {
        SteppingOverNl(c, EndsWithNl(c, e), rest);
      }
      var later;
      later, tail := DocumentFound(c, EndsWithNl(c, e), rest);
      pieces := [Piece(s[..k], e)] + later;
      assert pieces[1..] == later;
      assert s == s[..k] + s[k..];
    }
  }

  lemma {:induction false} EndOfDocument(bol: bool, s: Bytes)
    requires NextBegin(bol, s, 0) == |s|
    ensures NoBegin(bol, s)
  {
  }

  /** The reader accepts a file exactly when it is a printed document. */
  lemma {:induction false} AcceptsExactlyDocuments(c: Codec, raw: Bytes)
    ensures ReadFrom(c, true, raw).fault.None?
            <==> exists pieces, tail :: Separated(c, true, pieces, tail) && IsDoc(c, raw, pieces, tail)
  {
    hide ReadFrom, Separated, Doc;
    if ReadFrom(c, true, raw).fault.None? {
      var pieces, tail := AcceptedIsDocument(c, true, raw);
      assert IsDoc(c, raw, pieces, tail);
    }
    forall pieces, tail | Separated(c, true, pieces, tail) && IsDoc(c, raw, pieces, tail)
      ensures ReadFrom(c, true, raw).fault.None?
    {
      ReadsDocument(c, true, pieces, tail);
    }
  }

  ghost predicate IsDoc(c: Codec, raw: Bytes, pieces: seq<Piece>, tail: Bytes) {
    (forall i | 0 <= i < |pieces| :: ValidEntry(c, pieces[i].entry)) && raw == Doc(c, pieces, tail)
  }

  /** One pass of the reader, from the first begin line on. */
  lemma {:induction false} ReadStep(c: Codec, bol: bool, s: Bytes, k: nat)
    requires k == NextBegin(bol, s, 0)
    ensures k == |s| ==> ReadFrom(c, bol, s) == Reading([], None)
    ensures k < |s| ==> BeginAt(true, s[k..], 0)
    ensures k < |s| ==>
      match ParseFrame(c, s[k..])
      case Bad(f) => ReadFrom(c, bol, s) == Reading([], Some(f))
      case Good(e, rest) =>
        var skip := if SkipsNl(rest) then 1 else 0;
        var tail := ReadFrom(c, skip == 1 || EndsWithNl(c, e), rest[skip..]);
        ReadFrom(c, bol, s) == Reading([RecordOf(c, e, rest)] + tail.records, tail.fault)
  {
    hide NextBegin, ParseFrame, BeginAt, RecordOf, ValidEntry, Frame, EndsLine, EndsWithNl;
    if k < |s| { BeginShift(bol, s, k); }
  }

  /** `_records`: a cursor moves over the file and every pass yields one record. */
  method Records(c: Codec, raw: Bytes) returns (out: seq<Record>, fault: Option<Fault>)
    ensures Reading(out, fault) == ReadFrom(c, true, raw)
  {
    hide NextBegin, ParseFrame, BeginAt, RecordOf, ValidEntry, Frame, EndsLine, EndsWithNl, ReadFrom;
    var cursor, bol := 0, true;
    out := [];
    assert raw[0..] == raw;
    while true
      invariant cursor <= |raw|
      invariant var r := ReadFrom(c, bol, raw[cursor..]);
                Reading(out + r.records, r.fault) == ReadFrom(c, true, raw)
      decreases |raw| - cursor
    {
      var k := NextBegin(bol, raw[cursor..], 0);
      ReadStep(c, bol, raw[cursor..], k);
      assert raw[cursor..][k..] == raw[cursor + k..];
      if cursor + k == |raw| {
        assert out + [] == out;
        return out, None;
      }
      match ParseFrame(c, raw[cursor + k..]) {
        case Bad(f) =>
          assert out + [] == out;
          return out, Some(f);
        case Good(e, rest) =>
          var skip := if SkipsNl(rest) then 1 else 0;
          var end := |raw| - |rest| + skip;
          RestIsSuffix(raw, cursor + k, Frame(c, e), rest, skip);
          out := out + [RecordOf(c, e, rest)];
          cursor, bol := end, skip == 1 || EndsWithNl(c, e);
      }
    }
  }

  lemma {:induction false} RestIsSuffix(raw: Bytes, p: nat, frame: Bytes, rest: Bytes, skip: nat)
    requires p <= |raw| && raw[p..] == frame + rest && skip <= |rest|
    ensures raw[|raw| - |rest| + skip..] == rest[skip..]
  {
    assert raw == raw[..p] + frame + rest;
  }

  // ----- the record loop of validate ---------------------------------------------------------------------------------

  /** A record whose metadata describes it and its payload. */
  predicate Described(r: Record, sha: Bytes -> string) {
    && r.meta.sourceId == Some(r.id)
    && r.meta.virtualPath.Some? && r.meta.virtualPath.value != ""
    && r.meta.size == Some(|r.payload|) && r.meta.sha256 == Some(sha(r.payload))
  }

  /** Every record is described, and no two share an id or a virtual path. */
  ghost predicate Consistent(recs: seq<Record>, sha: Bytes -> string) {
    && (forall i | 0 <= i < |recs| :: Described(recs[i], sha))
    && forall i, j | 0 <= i < j < |recs| ::
         recs[i].id != recs[j].id && recs[i].meta.virtualPath != recs[j].meta.virtualPath
  }

  /** The record at `i` repeats the id or the path of an earlier one. */
  ghost predicate Repeats(recs: seq<Record>, i: nat)
    requires i < |recs|
  {
    exists k | 0 <= k < i :: recs[k].id == recs[i].id || recs[k].meta.virtualPath == recs[i].meta.virtualPath
  }

  lemma {:induction false} ConsistentNext(recs: seq<Record>, sha: Bytes -> string, i: nat)
    requires i < |recs| && Consistent(recs[..i], sha)
    ensures forall k | 0 <= k < i :: Described(recs[k], sha)
    ensures Consistent(recs[..i + 1], sha) <==> Described(recs[i], sha) && !Repeats(recs, i)
    ensures !Consistent(recs[..i + 1], sha) ==> !Consistent(recs, sha)
  {
    hide Described;
    assert forall k | 0 <= k < i :: recs[k] == recs[..i][k];
    var next := recs[..i + 1];
    assert forall k | 0 <= k <= i :: recs[k] == next[k];
  }

  /** The ids and the paths of the first `n` records. */
  function IdsTo(recs: seq<Record>, n: nat): set<string>
    requires n <= |recs|
  {
    if n == 0 then {} else IdsTo(recs, n - 1) + {recs[n - 1].id}
  }

  function PathsTo(recs: seq<Record>, n: nat): set<Option<string>>
    requires n <= |recs|
  {
    if n == 0 then {} else PathsTo(recs, n - 1) + {recs[n - 1].meta.virtualPath}
  }

  lemma {:induction false} InFirst(recs: seq<Record>, n: nat, id: string, path: Option<string>)
    requires n <= |recs|
    ensures id in IdsTo(recs, n) <==> exists k | 0 <= k < n :: recs[k].id == id
    ensures path in PathsTo(recs, n) <==> exists k | 0 <= k < n :: recs[k].meta.virtualPath == path
  {
    if n > 0 { InFirst(recs, n - 1, id, path); }
  }

  lemma {:induction false} RepeatsIffSeen(recs: seq<Record>, i: nat)
    requires i < |recs|
    ensures Repeats(recs, i) <==> recs[i].id in IdsTo(recs, i) || recs[i].meta.virtualPath in PathsTo(recs, i)
  {
    InFirst(recs, i, recs[i].id, recs[i].meta.virtualPath);
  }

  /** The loop over all records of all files, with its `records` and `paths` collections and the final count. */
  method ValidateRecords(recs: seq<Record>, sha: Bytes -> string, sourceCount: nat) returns (ok: bool)
    ensures ok <==> Consistent(recs, sha) && |recs| == sourceCount
  {
    hide Consistent, Described, Repeats;
    var ids: set<string>, paths: set<Option<string>> := {}, {};
    assert recs[..0] == [] && Consistent(recs[..0], sha) by { NoRecords(sha); }
    for i := 0 to |recs|
      invariant Consistent(recs[..i], sha)
      invariant ids == IdsTo(recs, i) && paths == PathsTo(recs, i) && |ids| == i
    {
      var r := recs[i];
      ConsistentNext(recs, sha, i);
      RepeatsIffSeen(recs, i);
      DescribedMeans(r, sha);
      if r.id in ids { return false; }
      if r.meta.sourceId != Some(r.id) { return false; }
      var path := r.meta.virtualPath;
      if path.None? || path == Some("") || path in paths { return false; }
      if r.meta.size != Some(|r.payload|) || r.meta.sha256 != Some(sha(r.payload)) { return false; }
      ids, paths := ids + {r.id}, paths + {r.meta.virtualPath};
    }
    assert recs[..|recs|] == recs;
    ok := |ids| == sourceCount;
  }

  lemma {:induction false} DescribedMeans(r: Record, sha: Bytes -> string)
    ensures Described(r, sha) <==>
      && r.meta.sourceId == Some(r.id) && r.meta.virtualPath.Some? && r.meta.virtualPath != Some("")
      && r.meta.size == Some(|r.payload|) && r.meta.sha256 == Some(sha(r.payload))
  {
  }

  lemma {:induction false} NoRecords(sha: Bytes -> string)
    ensures Consistent([], sha)
  {
  }
}
