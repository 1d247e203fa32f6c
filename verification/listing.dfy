/** `cmd_list`: the split of the records into an internal and an external group, and what the
    listing shows of each (every internal record, at most ten external ones and a note on
    how many more there are). */
module Listing {
  import opened Wrappers
  import opened Seqs
  import opened Text
  import opened Mail

  /** At most this many external records are listed. */
  const MaxExternalShown: nat := 10
  /** An internal record's preview is shown cut to this many characters, then `...`. */
  const SnippetLength: nat := 60

  predicate IsInternalRecord(e: Record) {
    e.isInternal
  }

  predicate IsExternalRecord(e: Record) {
    !e.isInternal
  }

  /** `[e for e in emails if e['is_internal']]`. */
  function InternalGroup(emails: seq<Record>): (g: seq<Record>)
    ensures forall k :: 0 <= k < |g| ==> g[k].isInternal && g[k] in emails
    ensures forall k :: 0 <= k < |emails| && emails[k].isInternal ==> emails[k] in g
  {
    Filter(emails, IsInternalRecord)
  }

  /** `[e for e in emails if not e['is_internal']]`. */
  function ExternalGroup(emails: seq<Record>): (g: seq<Record>)
    ensures forall k :: 0 <= k < |g| ==> !g[k].isInternal && g[k] in emails
    ensures forall k :: 0 <= k < |emails| && !emails[k].isInternal ==> emails[k] in g
  {
    Filter(emails, IsExternalRecord)
  }

  /** The two groups are complementary: every record lands in exactly one of them. */
  lemma GroupsPartition(emails: seq<Record>)
    ensures |InternalGroup(emails)| + |ExternalGroup(emails)| == |emails|
    ensures multiset(InternalGroup(emails)) + multiset(ExternalGroup(emails)) == multiset(emails)
  {
    FilterPartition(emails, IsInternalRecord, IsExternalRecord);
  }

  /** Both groups keep the order of the records. */
  lemma GroupsKeepOrder(a: seq<Record>, b: seq<Record>)
    ensures InternalGroup(a + b) == InternalGroup(a) + InternalGroup(b)
    ensures ExternalGroup(a + b) == ExternalGroup(a) + ExternalGroup(b)
  {
    FilterAppend(a, b, IsInternalRecord);
    FilterAppend(a, b, IsExternalRecord);
  }

  /** `preview[:60] + "..."`, printed only when the preview is not empty. */
  function Snippet(preview: String): (s: Option<String>)
    ensures s.Some? <==> preview != []
    ensures s.Some? ==> |s.value| == (if |preview| < SnippetLength then |preview| else SnippetLength) + 3
    ensures s.Some? ==> EndsWith(s.value, "...")
                        && StartsWith(preview, s.value[..|s.value| - 3])
  {
    if preview == [] then None else Some(Take(preview, SnippetLength) + "...")
  }

  /** One line of the internal group: the record and its preview snippet. */
  datatype Entry = Entry(record: Record, snippet: Option<String>)

  /** What `cmd_list` prints: the JSON dump of all records, the "no unread emails" notice,
      or the two groups. `more` is the count in the "... and N more" note, when printed. */
  datatype Screen =
    | Json(records: seq<Record>)
    | NoUnread
    | Overview(total: nat, internal: seq<Entry>, external: seq<Record>, more: Option<nat>)

  function Entries(group: seq<Record>): (es: seq<Entry>)
    ensures |es| == |group|
    ensures forall k :: 0 <= k < |es| ==> es[k].record == group[k]
    ensures forall k :: 0 <= k < |es| ==> es[k].snippet == Snippet(group[k].preview)
  {
    if group == [] then []
    else [Entry(group[0], Snippet(group[0].preview))] + Entries(group[1..])
  }

  /** The listing: every internal record; the external group cut to its first ten, with the
      note on the rest exactly when there are more than ten, for the exact number left. */
  function ListScreen(emails: seq<Record>, json: bool): (s: Screen)
    ensures json ==> s == Json(emails)
    ensures !json ==> (s.NoUnread? <==> emails == [])
    ensures !json && emails != [] ==> s.Overview?
    ensures s.Overview? ==>
      && s.total == |emails|
      && |s.internal| == |InternalGroup(emails)|
      && (forall k :: 0 <= k < |s.internal| ==> s.internal[k].record == InternalGroup(emails)[k])
      && (forall k :: 0 <= k < |s.internal| ==> s.internal[k].snippet == Snippet(InternalGroup(emails)[k].preview))
      && |s.external| == (if |ExternalGroup(emails)| > MaxExternalShown then MaxExternalShown
                          else |ExternalGroup(emails)|)
      && s.external == ExternalGroup(emails)[..|s.external|]
      && (s.more.Some? <==> |ExternalGroup(emails)| > MaxExternalShown)
      && (s.more.Some? ==> s.more.value == |ExternalGroup(emails)| - MaxExternalShown)
  {
    if json then Json(emails)
    else if emails == [] then NoUnread
    else
      var external := ExternalGroup(emails);
      Overview(
        |emails|,
        Entries(InternalGroup(emails)),
        Take(external, MaxExternalShown),
        if |external| > MaxExternalShown then Some(|external| - MaxExternalShown) else None)
  }

  /** The listing accounts for every record: the internal entries, the external ones shown
      and the count in the note add up to the total. */
  lemma ListingAccountsForAll(emails: seq<Record>)
    requires emails != []
    ensures var s := ListScreen(emails, false);
      |s.internal| + |s.external| + (if s.more.Some? then s.more.value else 0) == s.total
  {
    GroupsPartition(emails);
  }
}
