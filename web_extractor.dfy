/**
  The `SkypeWebExtractor` class of skype_web_extractor.py: a run-scoped list of
  records and the set of their keys, filled conversation by conversation after
  scrolling each one to the end, and merged into the stored workbook on export.
*/
module WebExtractor {
  import opened Wrappers
  import opened MessageParser
  import opened Records
  import opened Accumulation
  import opened ScrollLoader
  import opened MergeExport

  /** A conversation of this version: what each count of the region returned, and where the handling stopped. */
  datatype ScrolledVisit = ScrolledVisit(views: seq<seq<string>>, outcome: Outcome)

  /** The conversation failed before scrolling ended, or the scroll loop stops. */
  predicate Settles(v: ScrolledVisit)
  {
    v.outcome == FailedBefore || Stalls(v.views)
  }

  /** The labels read: those of the nodes present when the scroll loop stopped. */
  function ScrolledLabels(v: ScrolledVisit): seq<string>
    requires Settles(v)
  {
    if v.outcome == FailedBefore then [] else Processed(v.views[StallIndex(v.views)], v.outcome)
  }

  /**
    The wait needs one region node (none at all is `FailedBefore`); a later count that
    finds no message node reads no node and is no failure.
  */
  predicate WebFailed(v: ScrolledVisit)
  {
    v.outcome != Done
  }

  function ScrolledBatches(vs: seq<ScrolledVisit>): (bs: seq<seq<string>>)
    requires forall i :: 0 <= i < |vs| ==> Settles(vs[i])
    ensures |bs| == |vs|
  {
    seq(|vs|, i requires 0 <= i < |vs| => ScrolledLabels(vs[i]))
  }

  function WebFailures(vs: seq<ScrolledVisit>): (fs: seq<bool>)
    ensures |fs| == |vs|
  {
    seq(|vs|, i requires 0 <= i < |vs| => WebFailed(vs[i]))
  }

  /** `Date d'extraction`: the clock read when the list holds `k` records. */
  function Stamped(clock: nat -> string): Stamp
  {
    (k: nat) => Some(clock(k))
  }

  class SkypeWebExtractor {
    var messages: seq<Record>
    var uniqueMessages: set<string>

    /** The key set is the set of keys of the list, and no key occurs twice in the list. */
    ghost predicate Valid()
      reads this
    {
      uniqueMessages == KeySet(messages) && NoDupKeys(messages)
    }

    constructor ()
      ensures Valid()
      ensures messages == [] && uniqueMessages == {}
    {
      messages := [];
      uniqueMessages := {};
    }

    /** One node: parse its label, build its key, append the record when it is complete and new. */
    method AddMessage(ariaLabel: string, clock: nat -> string)
      requires Valid()
      modifies this
      ensures Valid()
      ensures messages == AddIfNew(old(messages), ariaLabel, Stamped(clock))
    {
      var parsed := Parse(ariaLabel);
      if parsed.Some? {
        var f := parsed.value;
        var id := KeyOf(f.name, f.content, f.time);
        if id !in uniqueMessages && f.name != "" && f.content != "" && f.time != "" {
          var r := Record(f.name, f.content, f.time, Some(clock(|messages|)));
          KeySetAppend(messages, r);
          NoDupKeysAppend(messages, r);
          messages := messages + [r];
          uniqueMessages := uniqueMessages + {id};
        }
      }
    }

    /** The loop over the nodes of one conversation. */
    method ScrapeMessages(labels: seq<string>, clock: nat -> string)
      requires Valid()
      modifies this
      ensures Valid()
      ensures messages == AddUnique(old(messages), labels, Stamped(clock))
    {
      ghost var start := messages;
      for i := 0 to |labels|
        invariant Valid()
        invariant messages == AddUnique(start, labels[..i], Stamped(clock))
      {
        AddMessage(labels[i], clock);
        AddUniqueStep(start, labels, i, Stamped(clock));
      }
      assert labels[..|labels|] == labels;
    }

    /** One iteration of the walk, inside its `try`: scroll to the end, then scrape. */
    method VisitConversation(v: ScrolledVisit, clock: nat -> string) returns (failed: bool)
      requires Valid() && Settles(v)
      modifies this
      ensures Valid()
      ensures messages == AddUnique(old(messages), ScrolledLabels(v), Stamped(clock))
      ensures failed == WebFailed(v)
    {
      if v.outcome == FailedBefore {
        return true;
      }
      var nodes, scrolls, targets := LoadHistory(v.views);
      ScrapeMessages(Processed(nodes, v.outcome), clock);
      failed := v.outcome != Done;
    }

    /**
      `extract_conversations`: when no conversation list appears the error is
      re-raised (`ListNotFound`); otherwise the first `limit` conversations are
      visited, a failing one is logged with its number and skipped.
    */
    method ExtractConversations(listing: Option<seq<ScrolledVisit>>, clock: nat -> string, limit: nat := 10)
      returns (report: Report)
      requires Valid()
      requires listing.Some? ==> forall i :: 0 <= i < Min(limit, |listing.value|) ==> Settles(listing.value[i])
      modifies this
      ensures Valid()
      ensures |uniqueMessages| == |messages|
      ensures listing == None || listing.value == [] ==> report == ListNotFound && messages == old(messages)
      ensures listing.Some? && listing.value != [] ==>
        var todo := listing.value[..Min(limit, |listing.value|)];
        && report == Walked(|listing.value|, |todo|, FailureLog(WebFailures(todo)))
        && messages == RunUnique(old(messages), ScrolledBatches(todo), Stamped(clock))
    {
      if listing == None || listing.value == [] {
        NoDupKeysCount(messages);
        return ListNotFound;
      }
      var conversations := listing.value;
      var todo := conversations[..Min(limit, |conversations|)];
      var failed: seq<nat> := [];
      ghost var start := messages;
      for i := 0 to |todo|
        invariant Valid()
        invariant messages == RunUnique(start, ScrolledBatches(todo)[..i], Stamped(clock))
        invariant failed == FailureLog(WebFailures(todo)[..i])
      {
        var conversationFailed := VisitConversation(todo[i], clock);
        if conversationFailed {
          failed := failed + [i + 1];
        }
        RunUniqueStep(start, ScrolledBatches(todo), i, Stamped(clock));
        FailureLogStep(WebFailures(todo), i);
      }
      assert ScrolledBatches(todo)[..|todo|] == ScrolledBatches(todo);
      assert WebFailures(todo)[..|todo|] == WebFailures(todo);
      NoDupKeysCount(messages);
      report := Walked(|conversations|, |todo|, failed);
    }

    /**
      `export_to_excel`: the existing workbook is given as its records (an empty list
      when there is none); returns what is written back.
    */
    method ExportToExcel(existing: seq<Record>) returns (stored: seq<Record>)
      ensures stored == Merged(existing, messages)
    {
      stored := existing;
      var existingIds := KeySet(existing);
      for i := 0 to |messages|
        invariant stored == existing + Unseen(existingIds, messages[..i])
      {
        if Key(messages[i]) !in existingIds {
          stored := stored + [messages[i]];
        }
        assert messages[..i + 1] == messages[..i] + [messages[i]];
      }
      assert messages[..|messages|] == messages;
    }
  }
}
