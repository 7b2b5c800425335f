/** The hand-built output of `main`: an opening brace line, one entry per
    record keyed by its id, and a closing brace line. Entries are
    separated by a comma after their closing brace; the last has none. */
module Emit {
  import opened Records

  /** One record as the `Printf` template prints it, up to and including
      the closing brace of the entry. */
  function EntryBody(e: NostrLog): string {
    "\t\"" + e.id + "\" :{\n\t\t\"date\" : \"" + e.contents.date
    + "\",\n\t\t\"pubkey\" : \"" + e.contents.pubKey
    + "\",\n\t\t\"content\" : \"" + e.contents.content + "\"\n\t}"
  }

  /** The loop from index `i` on: the entry before the last is followed
      by "},\n" and the last by "}\n", as the `cnt < last` test decides. */
  function EntriesFrom(es: seq<NostrLog>, i: nat): string
    requires i <= |es|
    decreases |es| - i
  {
    if i == |es| then ""
    else EntryBody(es[i]) + (if i < |es| - 1 then ",\n" else "\n") + EntriesFrom(es, i + 1)
  }

  /** Everything `main` prints for the sorted records. */
  function Render(es: seq<NostrLog>): string {
    "{\n" + EntriesFrom(es, 0) + "}\n"
  }

  /** The entries joined by a separator: an independent statement of the
      output's shape. */
  function Join(parts: seq<string>, sep: string): string {
    if |parts| == 0 then ""
    else if |parts| == 1 then parts[0]
    else parts[0] + sep + Join(parts[1..], sep)
  }

  /** Definition: the entry text of each record. */
  function Bodies(es: seq<NostrLog>): seq<string>
  {
    seq(|es|, i requires 0 <= i < |es| => EntryBody(es[i]))
  }

  lemma {:induction false} EntriesFromIsJoin(es: seq<NostrLog>, i: nat)
    requires i < |es|
    ensures EntriesFrom(es, i) == Join(Bodies(es)[i..], ",\n") + "\n"
    decreases |es| - i
  {
    var parts := Bodies(es)[i..];
    if i < |es| - 1 {
      EntriesFromIsJoin(es, i + 1);
      assert parts[1..] == Bodies(es)[i + 1..];
    }
  }

  /** The output is the brace lines around the entries joined by ",\n";
      an empty record set prints just the two brace lines. */
  lemma RenderIsJoin(es: seq<NostrLog>)
    ensures |es| == 0 ==> Render(es) == "{\n}\n"
    ensures |es| > 0 ==> Render(es) == "{\n" + Join(Bodies(es), ",\n") + "\n}\n"
  {
    if |es| > 0 {
      EntriesFromIsJoin(es, 0);
      assert Bodies(es)[0..] == Bodies(es);
    }
  }

  lemma {:induction false} JoinAppend(parts: seq<string>, p: string, sep: string)
    requires |parts| > 0
    ensures Join(parts + [p], sep) == Join(parts, sep) + sep + p
  {
    if |parts| > 1 {
      assert (parts + [p])[1..] == parts[1..] + [p];
      JoinAppend(parts[1..], p, sep);
    } else {
      assert (parts + [p])[1..] == [p];
    }
  }

  /** Appending a record turns the previous last entry's "}\n" into
      "},\n" and adds the new entry before the closing line. */
  lemma RenderAppend(es: seq<NostrLog>, e: NostrLog)
    requires |es| > 0
    ensures var before := Render(es);
      |before| >= 3 && Render(es + [e]) == before[..|before| - 3] + ",\n" + EntryBody(e) + "\n}\n"
  {
    RenderIsJoin(es);
    RenderIsJoin(es + [e]);
    assert Bodies(es + [e]) == Bodies(es) + [EntryBody(e)];
    JoinAppend(Bodies(es), EntryBody(e), ",\n");
    var j := Join(Bodies(es), ",\n");
    var before := Render(es);
    assert before == "{\n" + j + "\n}\n";
    assert before[..|before| - 3] == "{\n" + j;
  }
}
