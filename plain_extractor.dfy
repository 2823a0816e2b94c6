/**
  The `SkypeWebExtractor` class of base.py and of skype5.py (the two are the same
  here): every record with three non-empty fields is appended, with no
  de-duplication, for every conversation of the list.
*/
module PlainExtractor {
  import opened Wrappers
  import opened MessageParser
  import opened Records
  import opened Accumulation

  class SkypeWebExtractor {
    var messages: seq<Record>

    constructor ()
      ensures messages == []
    {
      messages := [];
    }

    /** One node: parse its label and append the record when its three fields are non-empty. */
    method AddMessage(ariaLabel: string)
      modifies this
      ensures messages == AddIfComplete(old(messages), ariaLabel)
    {
      var parsed := Parse(ariaLabel);
      if parsed.Some? {
        var f := parsed.value;
        if f.name != "" && f.content != "" && f.time != "" {
          messages := messages + [Record(f.name, f.content, f.time, None)];
        }
      }
    }

    /** The loop over the nodes of one conversation. */
    method ScrapeMessages(labels: seq<string>)
      modifies this
      ensures messages == AddAll(old(messages), labels)
    {
      ghost var start := messages;
      for i := 0 to |labels|
        invariant messages == AddAll(start, labels[..i])
      {
        AddMessage(labels[i]);
        AddAllStep(start, labels, i);
      }
      assert labels[..|labels|] == labels;
    }

    /** One iteration of the walk, inside its `try`. */
    method VisitConversation(v: Visit) returns (failed: bool)
      modifies this
      ensures messages == AddAll(old(messages), Scraped(v))
      ensures failed == Failed(v)
    {
      if v.nodes == [] || v.outcome == FailedBefore {
        return true;
      }
      ScrapeMessages(Processed(v.nodes, v.outcome));
      failed := v.outcome != Done;
    }

    /**
      `extract_conversations`: the wait for the list is outside any `try`, so its
      timeout propagates (`ListNotFound`); otherwise every conversation is visited,
      a failing one is reported with its number and skipped.
    */
    method ExtractConversations(listing: Option<seq<Visit>>) returns (report: Report)
      modifies this
      ensures listing == None || listing.value == [] ==> report == ListNotFound && messages == old(messages)
      ensures listing.Some? && listing.value != [] ==>
        && report == Walked(|listing.value|, |listing.value|, FailureLog(Failures(listing.value)))
        && messages == RunAll(old(messages), Batches(listing.value))
    {
      if listing == None || listing.value == [] {
        return ListNotFound;
      }
      var conversations := listing.value;
      var failed: seq<nat> := [];
      ghost var start := messages;
      for i := 0 to |conversations|
        invariant messages == RunAll(start, Batches(conversations)[..i])
        invariant failed == FailureLog(Failures(conversations)[..i])
      {
        var conversationFailed := VisitConversation(conversations[i]);
        if conversationFailed {
          failed := failed + [i + 1];
        }
        RunAllStep(start, Batches(conversations), i);
        FailureLogStep(Failures(conversations), i);
      }
      assert Batches(conversations)[..|conversations|] == Batches(conversations);
      assert Failures(conversations)[..|conversations|] == Failures(conversations);
      report := Walked(|conversations|, |conversations|, failed);
    }
  }
}
