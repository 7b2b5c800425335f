/** The record pipeline of `main`: ingest (escaping each record's content
    as `unmarchalStr` does), resolve the date spec, filter by the window,
    sort by descending date, and print. `main` ignores the error that
    `parseDate` returns, so an unresolvable spec filters with the window
    (0, 0) that `parseDate` returns alongside every error. */
module Pipeline {
  import opened Bytes
  import opened Records
  import opened Ordering
  import opened Escape
  import opened Emit
  import opened DateSpec

  /** The record `unmarchalStr` builds from one decoded entry: date and
      pubkey copied, content escaped. */
  function IngestOne(raw: NostrLog): (e: NostrLog)
    ensures e.id == raw.id && e.contents.date == raw.contents.date
    ensures e.contents.pubKey == raw.contents.pubKey
    ensures QuotesAndSlashesEscaped(e.contents.content)
  {
    EscapeOutputShape(raw.contents.content);
    NostrLog(raw.id, Contents(raw.contents.date, raw.contents.pubKey, EscapeContent(raw.contents.content)))
  }

  /** Definition: `unmarchalStr`'s loop, ingesting every decoded record
      in order. */
  function Ingest(raws: seq<NostrLog>): seq<NostrLog>
  {
    seq(|raws|, i requires 0 <= i < |raws| => IngestOne(raws[i]))
  }

  /** Definition: the window `main` filters with, the resolved one or
      (0, 0) when `parseDate` fails. */
  function EffectiveWindow(spec: seq<Byte>, offset: int): Window
  {
    ParseDate(spec, offset).GetOr(Window(0, 0))
  }

  /** The records `main` prints, in the order it prints them. */
  function Selected(raws: seq<NostrLog>, spec: seq<Byte>, offset: int): (r: seq<NostrLog>)
    ensures SortedByDateDesc(r)
    ensures var w := EffectiveWindow(spec, offset);
      forall e :: multiset(r)[e] == if InWindow(e, w.start, w.end) then multiset(Ingest(raws))[e] else 0
    ensures forall i :: 0 <= i < |r| ==> QuotesAndSlashesEscaped(r[i].contents.content)
  {
    var w := EffectiveWindow(spec, offset);
    var logs := Ingest(raws);
    var dest := FilterLogsByDateRange(logs, w.start, w.end);
    var r := SortByDateDesc(dest);
    forall i | 0 <= i < |r|
      ensures QuotesAndSlashesEscaped(r[i].contents.content)
    {
      assert r[i] in multiset(dest);
      assert r[i] in multiset(logs);
      var k :| 0 <= k < |logs| && logs[k] == r[i];
    }
    r
  }

  /** Everything `main` writes to standard output. */
  function Run(raws: seq<NostrLog>, spec: seq<Byte>, offset: int): string {
    Render(Selected(raws, spec, offset))
  }

  /** A spec `parseDate` rejects, whether of the wrong length or naming
      no valid date, does not abort the run: only records whose date
      parses to exactly 0 survive the (0, 0) window. */
  lemma InvalidSpecKeepsOnlyZero(raws: seq<NostrLog>, spec: seq<Byte>, offset: int)
    requires ParseDate(spec, offset).Err?
    ensures forall e :: (multiset(Selected(raws, spec, offset))[e] ==
      if ParseInt64(e.contents.date) == Results.Some(0) then multiset(Ingest(raws))[e] else 0)
  {
    assert EffectiveWindow(spec, offset) == Window(0, 0);
    var r := Selected(raws, spec, offset);
    forall e: NostrLog
      ensures multiset(r)[e] ==
        if ParseInt64(e.contents.date) == Results.Some(0) then multiset(Ingest(raws))[e] else 0
    {
      assert InWindow(e, 0, 0) <==> ParseInt64(e.contents.date) == Results.Some(0);
    }
  }
}
