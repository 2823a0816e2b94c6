/**
  What the scraping loops of `extract_conversations` compute, as functions of the
  labels they read, shared by the four versions of the extractor:
  - with de-duplication (skype_web_extractor.py and skype.py): a record is appended only
    when its three fields are non-empty and its key is not yet in `unique_messages`;
  - without it (base.py and skype5.py): every record with three non-empty fields is appended.
  The lists are built back to front so that one more label (or one more conversation)
  is one more call at the end, as in the loops.
*/
module Accumulation {
  import opened Wrappers
  import opened MessageParser
  import opened Records
  import Strings

  /** Where the handling of one conversation stopped. */
  datatype Outcome =
    | Done          // every node was read and the back button was clicked
    | FailedBefore  // the click, a wait or a scroll raised before any node was read
    | FailedAt(node: nat) // reading the label of this node raised (no aria-label)
    | FailedAfter   // every node was read, then locating or clicking the back button raised

  /** The labels whose records were handled before the conversation ended or failed. */
  function Processed(nodes: seq<string>, outcome: Outcome): seq<string>
  {
    match outcome
    case Done => nodes
    case FailedAfter => nodes
    case FailedBefore => []
    case FailedAt(j) => if j <= |nodes| then nodes[..j] else nodes
  }

  /** The parsed fields of a label, when all three are non-empty. */
  function Accept(ariaLabel: string): Option<Fields>
  {
    match Parse(ariaLabel)
    case None => None
    case Some(f) => if f.name != "" && f.content != "" && f.time != "" then Some(f) else None
  }

  function NewRecord(f: Fields, at: Option<string>): Record
  {
    Record(f.name, f.content, f.time, at)
  }

  function FieldsOf(r: Record): Fields
  {
    Fields(r.name, r.content, r.time)
  }

  /** The value of `Date d'extraction` given to the record at each position of the list. */
  type Stamp = nat -> Option<string>

  /** One step of the de-duplicating loop. */
  function AddIfNew(buf: seq<Record>, ariaLabel: string, stamp: Stamp): seq<Record>
  {
    match Accept(ariaLabel)
    case None => buf
    case Some(f) =>
      if KeyOf(f.name, f.content, f.time) in KeySet(buf) then buf
      else buf + [NewRecord(f, stamp(|buf|))]
  }

  /** The de-duplicating loop over the labels of one conversation. */
  function AddUnique(buf: seq<Record>, labels: seq<string>, stamp: Stamp): seq<Record>
    decreases |labels|
  {
    if labels == [] then buf
    else AddIfNew(AddUnique(buf, labels[..|labels| - 1], stamp), labels[|labels| - 1], stamp)
  }

  /** One step of the loop without de-duplication. */
  function AddIfComplete(buf: seq<Record>, ariaLabel: string): seq<Record>
  {
    match Accept(ariaLabel)
    case None => buf
    case Some(f) => buf + [NewRecord(f, None)]
  }

  /** The loop without de-duplication over the labels of one conversation. */
  function AddAll(buf: seq<Record>, labels: seq<string>): seq<Record>
    decreases |labels|
  {
    if labels == [] then buf
    else AddIfComplete(AddAll(buf, labels[..|labels| - 1]), labels[|labels| - 1])
  }

  /** The labels of all conversations, one conversation after the other. */
  function Concat(batches: seq<seq<string>>): seq<string>
    decreases |batches|
  {
    if batches == [] then [] else Concat(batches[..|batches| - 1]) + batches[|batches| - 1]
  }

  /** The de-duplicating walk: the loop over conversations around `AddUnique`. */
  function RunUnique(buf: seq<Record>, batches: seq<seq<string>>, stamp: Stamp): seq<Record>
    decreases |batches|
  {
    if batches == [] then buf
    else AddUnique(RunUnique(buf, batches[..|batches| - 1], stamp), batches[|batches| - 1], stamp)
  }

  /** The walk without de-duplication: the loop over conversations around `AddAll`. */
  function RunAll(buf: seq<Record>, batches: seq<seq<string>>): seq<Record>
    decreases |batches|
  {
    if batches == [] then buf
    else AddAll(RunAll(buf, batches[..|batches| - 1]), batches[|batches| - 1])
  }

  /**
    The error log of a walk: the numbers, counted from 1, of the conversations that
    failed, in the order they were visited.
  */
  function FailureLog(failed: seq<bool>): seq<nat>
    decreases |failed|
  {
    if failed == [] then []
    else
      var before := FailureLog(failed[..|failed| - 1]);
      if failed[|failed| - 1] then before + [|failed|] else before
  }

  /** The log holds exactly the failed numbers, each at most the length, in increasing order. */
  lemma {:induction false} FailureLogSpec(failed: seq<bool>)
    ensures forall k :: k in FailureLog(failed) <==> 1 <= k <= |failed| && failed[k - 1]
    ensures forall i, j :: 0 <= i < j < |FailureLog(failed)| ==> FailureLog(failed)[i] < FailureLog(failed)[j]
    ensures forall i :: 0 <= i < |FailureLog(failed)| ==> FailureLog(failed)[i] <= |failed|
    decreases |failed|
  {
    if failed != [] {
      var n := |failed|;
      var init := failed[..n - 1];
      FailureLogSpec(init);
      var before := FailureLog(init);
      var log := FailureLog(failed);
      forall k ensures k in log <==> 1 <= k <= n && failed[k - 1] {
        if 1 <= k < n {
          assert init[k - 1] == failed[k - 1];
        }
      }
      if failed[n - 1] {
        assert log == before + [n];
        forall i, j | 0 <= i < j < |log| ensures log[i] < log[j] {
          assert log[i] == before[i];
        }
      } else {
        assert log == before;
      }
    }
  }

  /**
    A conversation of a version that waits for its message nodes with
    `presence_of_all_elements_located`: the nodes present in the region, and where the
    handling stopped.
  */
  datatype Visit = Visit(nodes: seq<string>, outcome: Outcome)

  /** The wait for the message nodes times out when there are none, before any node is read. */
  function Scraped(v: Visit): seq<string>
  {
    if v.nodes == [] then [] else Processed(v.nodes, v.outcome)
  }

  predicate Failed(v: Visit)
  {
    v.outcome != Done || v.nodes == []
  }

  function Batches(vs: seq<Visit>): (bs: seq<seq<string>>)
    ensures |bs| == |vs|
  {
    seq(|vs|, i requires 0 <= i < |vs| => Scraped(vs[i]))
  }

  function Failures(vs: seq<Visit>): (fs: seq<bool>)
    ensures |fs| == |vs|
  {
    seq(|vs|, i requires 0 <= i < |vs| => Failed(vs[i]))
  }

  /** What a walk reports: the list was not found, or how many conversations were found, opened and failed. */
  datatype Report = ListNotFound | Walked(found: nat, attempted: nat, failed: seq<nat>)

  function Min(a: nat, b: nat): nat
  {
    if a <= b then a else b
  }

  // ---------------------------------------------------------------------------
  // Unfolding one step at the end

  lemma AddUniqueSnoc(buf: seq<Record>, labels: seq<string>, x: string, stamp: Stamp)
    ensures AddUnique(buf, labels + [x], stamp) == AddIfNew(AddUnique(buf, labels, stamp), x, stamp)
  {
    assert (labels + [x])[..|labels|] == labels;
  }

  lemma AddAllSnoc(buf: seq<Record>, labels: seq<string>, x: string)
    ensures AddAll(buf, labels + [x]) == AddIfComplete(AddAll(buf, labels), x)
  {
    assert (labels + [x])[..|labels|] == labels;
  }

  lemma ConcatSnoc(batches: seq<seq<string>>, b: seq<string>)
    ensures Concat(batches + [b]) == Concat(batches) + b
  {
    assert (batches + [b])[..|batches|] == batches;
  }

  /** One more label of a loop over `labels`, as the loops index them. */
  lemma AddUniqueStep(buf: seq<Record>, labels: seq<string>, i: nat, stamp: Stamp)
    requires i < |labels|
    ensures AddUnique(buf, labels[..i + 1], stamp) == AddIfNew(AddUnique(buf, labels[..i], stamp), labels[i], stamp)
  {
    assert labels[..i + 1][..i] == labels[..i];
  }

  lemma AddAllStep(buf: seq<Record>, labels: seq<string>, i: nat)
    requires i < |labels|
    ensures AddAll(buf, labels[..i + 1]) == AddIfComplete(AddAll(buf, labels[..i]), labels[i])
  {
    assert labels[..i + 1][..i] == labels[..i];
  }

  lemma RunUniqueStep(buf: seq<Record>, batches: seq<seq<string>>, i: nat, stamp: Stamp)
    requires i < |batches|
    ensures RunUnique(buf, batches[..i + 1], stamp) == AddUnique(RunUnique(buf, batches[..i], stamp), batches[i], stamp)
  {
    assert batches[..i + 1][..i] == batches[..i];
  }

  lemma RunAllStep(buf: seq<Record>, batches: seq<seq<string>>, i: nat)
    requires i < |batches|
    ensures RunAll(buf, batches[..i + 1]) == AddAll(RunAll(buf, batches[..i]), batches[i])
  {
    assert batches[..i + 1][..i] == batches[..i];
  }

  lemma FailureLogStep(failed: seq<bool>, i: nat)
    requires i < |failed|
    ensures FailureLog(failed[..i + 1]) == if failed[i] then FailureLog(failed[..i]) + [i + 1] else FailureLog(failed[..i])
  {
    assert failed[..i + 1][..i] == failed[..i];
  }

  // ---------------------------------------------------------------------------
  // The de-duplicating loop

  /** Handling the labels `a + b` is handling `a`, then `b` on the result. */
  lemma {:induction false} AddUniqueConcat(buf: seq<Record>, a: seq<string>, b: seq<string>, stamp: Stamp)
    ensures AddUnique(buf, a + b, stamp) == AddUnique(AddUnique(buf, a, stamp), b, stamp)
    decreases |b|
  {
    if b == [] {
      assert a + b == a;
    } else {
      var init, x := b[..|b| - 1], b[|b| - 1];
      assert a + b == (a + init) + [x];
      AddUniqueSnoc(buf, a + init, x, stamp);
      AddUniqueConcat(buf, a, init, stamp);
      assert b == init + [x];
      AddUniqueSnoc(AddUnique(buf, a, stamp), init, x, stamp);
    }
  }

  /** The list only grows: earlier records are kept, unchanged and in place. */
  lemma {:induction false} AddUniqueExtends(buf: seq<Record>, labels: seq<string>, stamp: Stamp)
    ensures IsPrefix(buf, AddUnique(buf, labels, stamp))
    decreases |labels|
  {
    if labels != [] {
      var before := AddUnique(buf, labels[..|labels| - 1], stamp);
      AddUniqueExtends(buf, labels[..|labels| - 1], stamp);
      var after := AddIfNew(before, labels[|labels| - 1], stamp);
      assert after == before || after[..|before|] == before;
    }
  }

  /**
    Nothing is lost to de-duplication: the keys after the loop are the earlier keys
    and the keys of every label with three non-empty fields.
  */
  lemma {:induction false} AddUniqueKeys(buf: seq<Record>, labels: seq<string>, stamp: Stamp)
    ensures KeySet(AddUnique(buf, labels, stamp)) == KeySet(buf) + KeySet(AddAll([], labels))
    decreases |labels|
  {
    if labels != [] {
      var init, x := labels[..|labels| - 1], labels[|labels| - 1];
      AddUniqueKeys(buf, init, stamp);
      var before := AddUnique(buf, init, stamp);
      var plain := AddAll([], init);
      match Accept(x)
      case None =>
      case Some(f) =>
        KeySetAppend(plain, NewRecord(f, None));
        if KeyOf(f.name, f.content, f.time) !in KeySet(before) {
          KeySetAppend(before, NewRecord(f, stamp(|before|)));
        }
    }
  }

  /** Starting from records with distinct keys, the loop keeps the keys distinct. */
  lemma {:induction false} AddUniqueNoDup(buf: seq<Record>, labels: seq<string>, stamp: Stamp)
    requires NoDupKeys(buf)
    ensures NoDupKeys(AddUnique(buf, labels, stamp))
    decreases |labels|
  {
    if labels != [] {
      var init, x := labels[..|labels| - 1], labels[|labels| - 1];
      AddUniqueNoDup(buf, init, stamp);
      var before := AddUnique(buf, init, stamp);
      match Accept(x)
      case None =>
      case Some(f) =>
        if KeyOf(f.name, f.content, f.time) !in KeySet(before) {
          NoDupKeysAppend(before, NewRecord(f, stamp(|before|)));
        }
    }
  }

  /**
    Every appended record has three non-empty fields, a key that was not there before,
    the stamp of its position, and the fields of one of the labels.
  */
  lemma {:induction false} AddUniqueAppended(buf: seq<Record>, labels: seq<string>, stamp: Stamp)
    ensures var after := AddUnique(buf, labels, stamp);
      forall i :: |buf| <= i < |after| ==>
        && Complete(after[i])
        && Key(after[i]) !in KeySet(buf)
        && after[i].extractedAt == stamp(i)
        && exists j :: 0 <= j < |labels| && Accept(labels[j]) == Some(FieldsOf(after[i]))
    decreases |labels|
  {
    if labels != [] {
      var init, x := labels[..|labels| - 1], labels[|labels| - 1];
      AddUniqueAppended(buf, init, stamp);
      AddUniqueKeys(buf, init, stamp);
      var before := AddUnique(buf, init, stamp);
      var after := AddUnique(buf, labels, stamp);
      forall i | |buf| <= i < |after|
        ensures && Complete(after[i])
                && Key(after[i]) !in KeySet(buf)
                && after[i].extractedAt == stamp(i)
                && exists j :: 0 <= j < |labels| && Accept(labels[j]) == Some(FieldsOf(after[i]))
      {
        if i < |before| {
          AddUniqueExtends(before, [x], stamp);
          assert AddUnique(before, [x], stamp) == after by {
            assert [x][..0] == [];
          }
          assert after[i] == before[i];
          var j :| 0 <= j < |init| && Accept(init[j]) == Some(FieldsOf(before[i]));
          assert labels[j] == init[j];
        } else {
          var f := Accept(x).value;
          assert after[i] == NewRecord(f, stamp(|before|));
          assert i == |before|;
          assert Accept(labels[|labels| - 1]) == Some(FieldsOf(after[i]));
          assert KeyOf(f.name, f.content, f.time) !in KeySet(before);
        }
      }
    }
  }

  /**
    The key decides alone: a later label whose fields differ but whose key collides
    with an earlier one is dropped.
  */
  lemma CollidingMessageDropped(first: string, second: string, stamp: Stamp)
    requires Accept(first).Some? && Accept(second).Some?
    requires var f, g := Accept(first).value, Accept(second).value;
      KeyOf(f.name, f.content, f.time) == KeyOf(g.name, g.content, g.time)
    ensures AddUnique([], [first, second], stamp) == [NewRecord(Accept(first).value, stamp(0))]
  {
    var r := NewRecord(Accept(first).value, stamp(0));
    FirstLabelKept(first, stamp);
    assert [first, second] == [first] + [second];
    AddUniqueSnoc([], [first], second, stamp);
    SeenKeyDropped(r, second, stamp);
  }

  /** The first accepted label of an empty list becomes its only record. */
  lemma FirstLabelKept(x: string, stamp: Stamp)
    requires Accept(x).Some?
    ensures AddUnique([], [x], stamp) == [NewRecord(Accept(x).value, stamp(0))]
  {
    assert [x] == [] + [x];
    AddUniqueSnoc([], [], x, stamp);
  }

  /** A label whose key is that of the one record held leaves the list as it is. */
  lemma SeenKeyDropped(r: Record, y: string, stamp: Stamp)
    requires Accept(y).Some?
    requires var g := Accept(y).value; KeyOf(g.name, g.content, g.time) == Key(r)
    ensures AddIfNew([r], y, stamp) == [r]
  {
    assert [r] == [] + [r];
    KeySetAppend([], r);
    assert Key(r) in KeySet([r]);
  }

  /**
    A conversation that fails at node `j` keeps exactly the records a complete pass
    would have appended for its first `j` nodes.
  */
  lemma PartialConversationPrefix(buf: seq<Record>, nodes: seq<string>, j: nat, stamp: Stamp)
    requires j <= |nodes|
    ensures AddUnique(buf, Processed(nodes, FailedAt(j)), stamp) == AddUnique(buf, nodes[..j], stamp)
    ensures IsPrefix(AddUnique(buf, Processed(nodes, FailedAt(j)), stamp), AddUnique(buf, nodes, stamp))
    ensures IsPrefix(AddAll(buf, Processed(nodes, FailedAt(j))), AddAll(buf, nodes))
  {
    assert nodes == nodes[..j] + nodes[j..];
    AddUniqueConcat(buf, nodes[..j], nodes[j..], stamp);
    AddUniqueExtends(AddUnique(buf, nodes[..j], stamp), nodes[j..], stamp);
    AddAllConcat(buf, nodes[..j], nodes[j..]);
    AddAllAppends(AddAll(buf, nodes[..j]), nodes[j..]);
  }

  /**
    A label formatted from non-empty fields, with no `", "` in the sender or the time
    and no `" à "` in the time, is accepted with exactly those fields.
  */
  lemma AcceptFormat(f: Fields)
    requires f.name != "" && f.content != "" && f.time != ""
    requires !Strings.Contains(f.name, Comma) && !Strings.Contains(f.time, Comma) && !Strings.Contains(f.time, At)
    ensures Accept(Format(f)) == Some(f)
  {
    ParseFormatInverse(f);
  }

  /** A label without two separate `", "` gives no record. */
  lemma AcceptRejectsUnseparated(ariaLabel: string)
    requires !Strings.OccursTwice(ariaLabel, Comma)
    ensures Accept(ariaLabel) == None
  {
    ParseNoneIff(ariaLabel);
  }

  // ---------------------------------------------------------------------------
  // The loop without de-duplication

  /** Handling the labels `a + b` is handling `a`, then `b` on the result. */
  lemma {:induction false} AddAllConcat(buf: seq<Record>, a: seq<string>, b: seq<string>)
    ensures AddAll(buf, a + b) == AddAll(AddAll(buf, a), b)
    decreases |b|
  {
    if b == [] {
      assert a + b == a;
    } else {
      var init, x := b[..|b| - 1], b[|b| - 1];
      assert a + b == (a + init) + [x];
      AddAllSnoc(buf, a + init, x);
      AddAllConcat(buf, a, init);
      assert b == init + [x];
      AddAllSnoc(AddAll(buf, a), init, x);
    }
  }

  /** The loop appends to the list it is given: its own records come after the old ones. */
  lemma {:induction false} AddAllAppends(buf: seq<Record>, labels: seq<string>)
    ensures AddAll(buf, labels) == buf + AddAll([], labels)
    decreases |labels|
  {
    if labels != [] {
      var init, x := labels[..|labels| - 1], labels[|labels| - 1];
      AddAllAppends(buf, init);
      match Accept(x)
      case None =>
      case Some(f) =>
        assert (buf + AddAll([], init)) + [NewRecord(f, None)] == buf + (AddAll([], init) + [NewRecord(f, None)]);
    }
  }

  /**
    A record is produced exactly when some label parses to its fields, all three
    non-empty; it carries no extraction date.
  */
  lemma {:induction false} AddAllMembers(labels: seq<string>, r: Record)
    ensures r in AddAll([], labels) <==>
      r.extractedAt == None && exists j :: 0 <= j < |labels| && Accept(labels[j]) == Some(FieldsOf(r))
    decreases |labels|
  {
    if labels != [] {
      var init, x := labels[..|labels| - 1], labels[|labels| - 1];
      AddAllMembers(init, r);
      forall j | 0 <= j < |init| ensures labels[j] == init[j] {}
      if r.extractedAt == None && (exists j :: 0 <= j < |labels| && Accept(labels[j]) == Some(FieldsOf(r))) {
        var j :| 0 <= j < |labels| && Accept(labels[j]) == Some(FieldsOf(r));
        if j == |labels| - 1 {
          assert NewRecord(Accept(x).value, None) == r;
        }
      }
    }
  }

  /** Without de-duplication, a label seen twice gives two equal records. */
  lemma PlainKeepsDuplicates(ariaLabel: string)
    requires Accept(ariaLabel).Some?
    ensures var r := NewRecord(Accept(ariaLabel).value, None);
      AddAll([], [ariaLabel, ariaLabel]) == [r, r]
  {
    AddAllSnoc([], [ariaLabel], ariaLabel);
    AddAllSnoc([], [], ariaLabel);
    assert [ariaLabel] == [] + [ariaLabel];
  }

  /** With de-duplication, a label seen twice gives one record. */
  lemma UniqueDropsDuplicates(ariaLabel: string, stamp: Stamp)
    requires Accept(ariaLabel).Some?
    ensures AddUnique([], [ariaLabel, ariaLabel], stamp) == [NewRecord(Accept(ariaLabel).value, stamp(0))]
  {
    var r := NewRecord(Accept(ariaLabel).value, stamp(0));
    FirstLabelKept(ariaLabel, stamp);
    assert [ariaLabel, ariaLabel] == [ariaLabel] + [ariaLabel];
    AddUniqueSnoc([], [ariaLabel], ariaLabel, stamp);
    SeenKeyDropped(r, ariaLabel, stamp);
  }

  // ---------------------------------------------------------------------------
  // Walks over several conversations

  lemma {:induction false} ConcatAppend(a: seq<seq<string>>, b: seq<seq<string>>)
    ensures Concat(a + b) == Concat(a) + Concat(b)
    decreases |b|
  {
    if b == [] {
      assert a + b == a;
    } else {
      var init, x := b[..|b| - 1], b[|b| - 1];
      assert a + b == (a + init) + [x];
      ConcatSnoc(a + init, x);
      ConcatAppend(a, init);
      assert b == init + [x];
      ConcatSnoc(init, x);
    }
  }

  /**
    The run-scoped seen-set spans conversations: a walk scrapes the labels of all
    conversations, one after the other, as one de-duplicating loop.
  */
  lemma {:induction false} RunUniqueFlat(buf: seq<Record>, batches: seq<seq<string>>, stamp: Stamp)
    ensures RunUnique(buf, batches, stamp) == AddUnique(buf, Concat(batches), stamp)
    decreases |batches|
  {
    if batches != [] {
      var init, b := batches[..|batches| - 1], batches[|batches| - 1];
      RunUniqueFlat(buf, init, stamp);
      AddUniqueConcat(buf, Concat(init), b, stamp);
    }
  }

  /** A walk without de-duplication is one loop over the labels of all conversations. */
  lemma {:induction false} RunAllFlat(buf: seq<Record>, batches: seq<seq<string>>)
    ensures RunAll(buf, batches) == AddAll(buf, Concat(batches))
    decreases |batches|
  {
    if batches != [] {
      var init, b := batches[..|batches| - 1], batches[|batches| - 1];
      RunAllFlat(buf, init);
      AddAllConcat(buf, Concat(init), b);
    }
  }

  /**
    Failure isolation: a conversation that contributed no labels (it failed before
    its first node) leaves the walk as if it had not been in the list.
  */
  lemma SkipsSilentConversation(buf: seq<Record>, batches: seq<seq<string>>, i: nat, stamp: Stamp)
    requires i < |batches| && batches[i] == []
    ensures RunUnique(buf, batches, stamp) == RunUnique(buf, batches[..i] + batches[i + 1..], stamp)
    ensures RunAll(buf, batches) == RunAll(buf, batches[..i] + batches[i + 1..])
  {
    var before, after := batches[..i], batches[i + 1..];
    ConcatSkipsEmpty(before, after);
    assert batches == before + [[]] + after;
    RunUniqueFlat(buf, batches, stamp);
    RunUniqueFlat(buf, before + after, stamp);
    RunAllFlat(buf, batches);
    RunAllFlat(buf, before + after);
  }

  lemma ConcatSkipsEmpty(before: seq<seq<string>>, after: seq<seq<string>>)
    ensures Concat(before + [[]] + after) == Concat(before + after)
  {
    ConcatAppend(before + [[]], after);
    ConcatSnoc(before, []);
    ConcatAppend(before, after);
  }

  /**
    Records appended while handling the first `i` conversations (including one that
    failed part-way) are kept, unchanged and in place, by the rest of the walk.
  */
  lemma WalkKeepsEarlierRecords(buf: seq<Record>, batches: seq<seq<string>>, i: nat, stamp: Stamp)
    requires i <= |batches|
    ensures IsPrefix(RunUnique(buf, batches[..i], stamp), RunUnique(buf, batches, stamp))
    ensures IsPrefix(RunAll(buf, batches[..i]), RunAll(buf, batches))
  {
    assert batches == batches[..i] + batches[i..];
    ConcatAppend(batches[..i], batches[i..]);
    RunUniqueFlat(buf, batches, stamp);
    RunUniqueFlat(buf, batches[..i], stamp);
    AddUniqueConcat(buf, Concat(batches[..i]), Concat(batches[i..]), stamp);
    AddUniqueExtends(AddUnique(buf, Concat(batches[..i]), stamp), Concat(batches[i..]), stamp);
    RunAllFlat(buf, batches);
    RunAllFlat(buf, batches[..i]);
    AddAllConcat(buf, Concat(batches[..i]), Concat(batches[i..]));
    AddAllAppends(AddAll(buf, Concat(batches[..i])), Concat(batches[i..]));
  }

  /**
    Conversation 2 of 3 fails while it is being opened: conversations 1 and 3 still
    contribute their records, and the error log holds the single entry 2.
  */
  lemma SecondOfThreeFails(buf: seq<Record>, vs: seq<Visit>, stamp: Stamp)
    requires |vs| == 3 && vs[1].outcome == FailedBefore
    requires vs[0].outcome == Done && vs[0].nodes != [] && vs[2].outcome == Done && vs[2].nodes != []
    ensures RunUnique(buf, Batches(vs), stamp) == AddUnique(buf, vs[0].nodes + vs[2].nodes, stamp)
    ensures RunAll(buf, Batches(vs)) == buf + AddAll([], vs[0].nodes + vs[2].nodes)
    ensures FailureLog(Failures(vs)) == [2]
  {
    var bs := Batches(vs);
    assert bs[..1] + bs[2..] == [vs[0].nodes, vs[2].nodes];
    SkipsSilentConversation(buf, bs, 1, stamp);
    ConcatPair(vs[0].nodes, vs[2].nodes);
    RunUniqueFlat(buf, [vs[0].nodes, vs[2].nodes], stamp);
    RunAllFlat(buf, [vs[0].nodes, vs[2].nodes]);
    AddAllAppends(buf, vs[0].nodes + vs[2].nodes);
    assert Failures(vs) == [false, true, false];
    OnlySecondLogged();
  }

  lemma ConcatPair(a: seq<string>, b: seq<string>)
    ensures Concat([a, b]) == a + b
  {
    assert [a, b][..1] == [a] && [a][..0] == [];
    assert Concat([a]) == a;
  }

  lemma OnlySecondLogged()
    ensures FailureLog([false, true, false]) == [2]
  {
    assert [false, true, false][..2] == [false, true];
    assert [false, true][..1] == [false] && [false][..0] == [];
  }
}
