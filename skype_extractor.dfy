/**
  The `SkypeWebExtractor` class of skype.py: the same run-scoped de-duplication as
  skype_web_extractor.py, without scrolling and without an extraction date. The nodes
  of a conversation are those its region wait returns; that wait times out when
  there are none.
*/
module SkypeExtractor {
  import opened Wrappers
  import opened MessageParser
  import opened Records
  import opened Accumulation

  /** Records of this version carry no extraction date. */
  function NoStamp(k: nat): Option<string>
  {
    None
  }

  class SkypeWebExtractor {
    var messages: seq<Record>
    var uniqueMessages: set<string>

    /** The key set is the set of keys of the list, and no key occurs twice in the list. */
    ghost predicate Valid()
      reads this
    {
      uniqueMessages == KeySet(messages) && NoDupKeys(messages)
    }

    constructor ()
      ensures Valid()
      ensures messages == [] && uniqueMessages == {}
    {
      messages := [];
      uniqueMessages := {};
    }

    /** One node: parse its label, build its key, append the record when it is complete and new. */
    method AddMessage(ariaLabel: string)
      requires Valid()
      modifies this
      ensures Valid()
      ensures messages == AddIfNew(old(messages), ariaLabel, NoStamp)
    {
      var parsed := Parse(ariaLabel);
      if parsed.Some? {
        var f := parsed.value;
        var id := KeyOf(f.name, f.content, f.time);
        if id !in uniqueMessages && f.name != "" && f.content != "" && f.time != "" {
          var r := Record(f.name, f.content, f.time, None);
          KeySetAppend(messages, r);
          NoDupKeysAppend(messages, r);
          messages := messages + [r];
          uniqueMessages := uniqueMessages + {id};
        }
      }
    }

    /** The loop over the nodes of one conversation. */
    method ScrapeMessages(labels: seq<string>)
      requires Valid()
      modifies this
      ensures Valid()
      ensures messages == AddUnique(old(messages), labels, NoStamp)
    {
      ghost var start := messages;
      for i := 0 to |labels|
        invariant Valid()
        invariant messages == AddUnique(start, labels[..i], NoStamp)
      {
        AddMessage(labels[i]);
        AddUniqueStep(start, labels, i, NoStamp);
      }
      assert labels[..|labels|] == labels;
    }

    /** One iteration of the walk, inside its `try`. */
    method VisitConversation(v: Visit) returns (failed: bool)
      requires Valid()
      modifies this
      ensures Valid()
      ensures messages == AddUnique(old(messages), Scraped(v), NoStamp)
      ensures failed == Failed(v)
    {
      if v.nodes == [] || v.outcome == FailedBefore {
        return true;
      }
      ScrapeMessages(Processed(v.nodes, v.outcome));
      failed := v.outcome != Done;
    }

    /**
      `extract_conversations`: when no conversation list appears the error is
      re-raised (`ListNotFound`); otherwise the first `limit` conversations are
      visited, a failing one is logged with its number and skipped.
    */
    method ExtractConversations(listing: Option<seq<Visit>>, limit: nat := 10) returns (report: Report)
      requires Valid()
      modifies this
      ensures Valid()
      ensures |uniqueMessages| == |messages|
      ensures listing == None || listing.value == [] ==> report == ListNotFound && messages == old(messages)
      ensures listing.Some? && listing.value != [] ==>
        var todo := listing.value[..Min(limit, |listing.value|)];
        && report == Walked(|listing.value|, |todo|, FailureLog(Failures(todo)))
        && messages == RunUnique(old(messages), Batches(todo), NoStamp)
    {
      if listing == None || listing.value == [] {
        NoDupKeysCount(messages);
        return ListNotFound;
      }
      var conversations := listing.value;
      var todo := conversations[..Min(limit, |conversations|)];
      var failed: seq<nat> := [];
      ghost var start := messages;
      for i := 0 to |todo|
        invariant Valid()
        invariant messages == RunUnique(start, Batches(todo)[..i], NoStamp)
        invariant failed == FailureLog(Failures(todo)[..i])
      {
        var conversationFailed := VisitConversation(todo[i]);
        if conversationFailed {
          failed := failed + [i + 1];
        }
        RunUniqueStep(start, Batches(todo), i, NoStamp);
        FailureLogStep(Failures(todo), i);
      }
      assert Batches(todo)[..|todo|] == Batches(todo);
      assert Failures(todo)[..|todo|] == Failures(todo);
      NoDupKeysCount(messages);
      report := Walked(|conversations|, |todo|, failed);
    }
  }
}
