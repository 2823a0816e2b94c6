/**
  The merge of `export_to_excel` in skype_web_extractor.py: the keys of the records
  already in the workbook are computed once; every record of the run whose key is not
  among them is appended, in run order. The set of keys is not updated inside the loop.
*/
module MergeExport {
  import opened Records
  import Strings

  /** The records of `run` whose key is not in `seen`, in run order. */
  function Unseen(seen: set<string>, run: seq<Record>): seq<Record>
    decreases |run|
  {
    if run == [] then []
    else
      var last := run[|run| - 1];
      var before := Unseen(seen, run[..|run| - 1]);
      if Key(last) in seen then before else before + [last]
  }

  /** What is written back: the existing records, then the unseen records of the run. */
  function Merged(existing: seq<Record>, run: seq<Record>): seq<Record>
  {
    existing + Unseen(KeySet(existing), run)
  }

  /**
    The existing records come first, unchanged; a record follows them exactly when it
    is in the run with a key not already stored; an empty run writes back the existing
    records alone.
  */
  lemma MergedShape(existing: seq<Record>, run: seq<Record>)
    ensures IsPrefix(existing, Merged(existing, run))
    ensures forall r :: r in Merged(existing, run)[|existing|..] <==> r in run && Key(r) !in KeySet(existing)
    ensures run == [] ==> Merged(existing, run) == existing
  {
    var m := Merged(existing, run);
    assert m[|existing|..] == Unseen(KeySet(existing), run);
    forall r ensures r in m[|existing|..] <==> r in run && Key(r) !in KeySet(existing) {
      UnseenMembers(KeySet(existing), run, r);
    }
  }

  /** A record is appended exactly when it is in the run and its key is not already stored. */
  lemma {:induction false} UnseenMembers(seen: set<string>, run: seq<Record>, r: Record)
    ensures r in Unseen(seen, run) <==> r in run && Key(r) !in seen
    decreases |run|
  {
    if run != [] {
      var init := run[..|run| - 1];
      UnseenMembers(seen, init, r);
      assert run == init + [run[|run| - 1]];
    }
  }

  /** The filter works record by record: the run's order is kept, one part after the other. */
  lemma {:induction false} UnseenAppend(seen: set<string>, a: seq<Record>, b: seq<Record>)
    ensures Unseen(seen, a + b) == Unseen(seen, a) + Unseen(seen, b)
    decreases |b|
  {
    if b == [] {
      assert a + b == a;
    } else {
      var init, last := b[..|b| - 1], b[|b| - 1];
      assert (a + b)[..|a + b| - 1] == a + init;
      UnseenAppend(seen, a, init);
    }
  }

  /** The keys written are the stored keys and the run's keys. */
  lemma {:induction false} UnseenKeys(seen: set<string>, run: seq<Record>)
    ensures KeySet(Unseen(seen, run)) == KeySet(run) - seen
    ensures seen !! KeySet(Unseen(seen, run))
    decreases |run|
  {
    if run != [] {
      var init, last := run[..|run| - 1], run[|run| - 1];
      UnseenKeys(seen, init);
      KeySetAppend(init, last);
      assert run == init + [last];
      KeySetAppend(Unseen(seen, init), last);
    }
  }

  lemma MergedKeys(existing: seq<Record>, run: seq<Record>)
    ensures KeySet(Merged(existing, run)) == KeySet(existing) + KeySet(run)
  {
    UnseenKeys(KeySet(existing), run);
    KeySetConcat(existing, Unseen(KeySet(existing), run));
  }

  /** Records with distinct keys stay distinct when the run's keys are distinct too. */
  lemma {:induction false} UnseenNoDup(seen: set<string>, run: seq<Record>)
    requires NoDupKeys(run)
    ensures NoDupKeys(Unseen(seen, run))
    decreases |run|
  {
    if run != [] {
      var init, last := run[..|run| - 1], run[|run| - 1];
      assert NoDupKeys(init) by {
        forall i, j | 0 <= i < j < |init| ensures Key(init[i]) != Key(init[j]) {
          assert init[i] == run[i] && init[j] == run[j];
        }
      }
      UnseenNoDup(seen, init);
      if Key(last) !in seen {
        var u := Unseen(seen, init);
        assert Key(last) !in KeySet(u) by {
          UnseenKeys(seen, init);
          forall i | 0 <= i < |init| ensures Key(init[i]) != Key(last) {
            assert init[i] == run[i];
          }
          KeySetMembership(init, Key(last));
        }
        NoDupKeysAppend(u, last);
      }
    }
  }

  lemma MergedNoDup(existing: seq<Record>, run: seq<Record>)
    requires NoDupKeys(existing) && NoDupKeys(run)
    ensures NoDupKeys(Merged(existing, run))
  {
    var u := Unseen(KeySet(existing), run);
    UnseenNoDup(KeySet(existing), run);
    UnseenKeys(KeySet(existing), run);
    var m := existing + u;
    forall i, j | 0 <= i < j < |m| ensures Key(m[i]) != Key(m[j]) {
      if j < |existing| {
        assert m[i] == existing[i] && m[j] == existing[j];
      } else if i >= |existing| {
        assert m[i] == u[i - |existing|] && m[j] == u[j - |existing|];
      } else {
        assert m[i] == existing[i] && m[j] == u[j - |existing|];
        KeySetMembership(existing, Key(m[i]));
        KeySetMembership(u, Key(m[j]));
      }
    }
  }

  /** Exporting the same run twice changes nothing the second time. */
  lemma MergedIdempotent(existing: seq<Record>, run: seq<Record>)
    ensures Merged(Merged(existing, run), run) == Merged(existing, run)
  {
    MergedKeys(existing, run);
    AllSeen(KeySet(Merged(existing, run)), run);
    assert Merged(existing, run) + [] == Merged(existing, run);
  }

  /** Nothing is appended when every key of the run is already stored. */
  lemma {:induction false} AllSeen(seen: set<string>, run: seq<Record>)
    requires KeySet(run) <= seen
    ensures Unseen(seen, run) == []
    decreases |run|
  {
    if run != [] {
      var init, last := run[..|run| - 1], run[|run| - 1];
      KeySetAppend(init, last);
      assert run == init + [last];
      AllSeen(seen, init);
    }
  }

  /** Into an empty workbook, the whole run is written as it is. */
  lemma {:induction false} NothingSeen(run: seq<Record>)
    ensures Unseen({}, run) == run
    decreases |run|
  {
    if run != [] {
      NothingSeen(run[..|run| - 1]);
      assert run == run[..|run| - 1] + [run[|run| - 1]];
    }
  }

  lemma MergedIntoEmpty(run: seq<Record>)
    ensures Merged([], run) == run
  {
    NothingSeen(run);
    assert [] + run == run;
  }

  /**
    Exporting two runs one after the other is exporting them together, when the second
    shares no key with the records the first one added.
  */
  lemma MergedTwice(existing: seq<Record>, a: seq<Record>, b: seq<Record>)
    requires KeySet(Unseen(KeySet(existing), a)) !! KeySet(b)
    ensures Merged(Merged(existing, a), b) == Merged(existing, a + b)
  {
    var s := KeySet(existing);
    var ua, ub := Unseen(s, a), Unseen(s, b);
    SecondRunFilter(existing, a, b);
    assert Merged(Merged(existing, a), b) == (existing + ua) + ub;
    UnseenAppend(s, a, b);
    assert Merged(existing, a + b) == existing + (ua + ub);
    Strings.ConcatAssoc(existing, ua, ub);
  }

  /** The records the first export added hold no key of the second run. */
  lemma SecondRunFilter(existing: seq<Record>, a: seq<Record>, b: seq<Record>)
    requires KeySet(Unseen(KeySet(existing), a)) !! KeySet(b)
    ensures Unseen(KeySet(Merged(existing, a)), b) == Unseen(KeySet(existing), b)
  {
    var ua := Unseen(KeySet(existing), a);
    KeySetConcat(existing, ua);
    SameUnseen(KeySet(existing), KeySet(ua), b);
  }

  /** Keys the run does not hold make no difference to the filter. */
  lemma {:induction false} SameUnseen(seen: set<string>, extra: set<string>, run: seq<Record>)
    requires extra !! KeySet(run)
    ensures Unseen(seen + extra, run) == Unseen(seen, run)
    decreases |run|
  {
    if run != [] {
      var init, last := run[..|run| - 1], run[|run| - 1];
      KeySetAppend(init, last);
      assert run == init + [last];
      SameUnseen(seen, extra, init);
    }
  }

  /**
    Because the key set is not updated inside the loop, a record present twice in the
    run with a new key is appended twice.
  */
  lemma RunDuplicatesBothAppended(existing: seq<Record>, r: Record)
    requires Key(r) !in KeySet(existing)
    ensures Merged(existing, [r, r]) == existing + [r, r]
  {
    var s := KeySet(existing);
    assert [r, r][..1] == [r] && [r][..0] == [];
    assert Unseen(s, [r]) == [r];
    assert Unseen(s, [r, r]) == [r, r];
  }
}
