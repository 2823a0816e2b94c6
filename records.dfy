/**
  The message records the extractors accumulate, and their identity key
  `f"{Nom}_{Message}_{Heure}"`.
*/
module Records {
  import opened Wrappers

  /**
    One row of the output: `Nom`, `Message`, `Heure` and, in the version that stamps
    its records, `Date d'extraction`.
  */
  datatype Record = Record(name: string, content: string, time: string, extractedAt: Option<string>)

  /** The identity key of a sender, content and time, joined with `"_"`. */
  function KeyOf(name: string, content: string, time: string): string
  {
    name + "_" + content + "_" + time
  }

  function Key(r: Record): string
  {
    KeyOf(r.name, r.content, r.time)
  }

  /** All three fields are non-empty (Python truthiness of the three strings). */
  predicate Complete(r: Record)
  {
    r.name != "" && r.content != "" && r.time != ""
  }

  /** The set of keys of a list of records. */
  function KeySet(rs: seq<Record>): set<string>
  {
    if rs == [] then {} else KeySet(rs[..|rs| - 1]) + {Key(rs[|rs| - 1])}
  }

  /** No two records of the list share a key. */
  ghost predicate NoDupKeys(rs: seq<Record>)
  {
    forall i, j :: 0 <= i < j < |rs| ==> Key(rs[i]) != Key(rs[j])
  }

  /** `ys` starts with `xs`: the entries of `xs` are kept, unchanged and in place. */
  ghost predicate IsPrefix(xs: seq<Record>, ys: seq<Record>)
  {
    |xs| <= |ys| && ys[..|xs|] == xs
  }

  /** A key is in the key set exactly when some record of the list has it. */
  lemma {:induction false} KeySetMembership(rs: seq<Record>, k: string)
    ensures k in KeySet(rs) <==> exists i :: 0 <= i < |rs| && Key(rs[i]) == k
    decreases |rs|
  {
    if rs != [] {
      var init := rs[..|rs| - 1];
      KeySetMembership(init, k);
      if k in KeySet(init) {
        var i :| 0 <= i < |init| && Key(init[i]) == k;
        assert Key(rs[i]) == k;
      }
      forall i | 0 <= i < |init| ensures rs[i] == init[i] {}
    }
  }

  lemma KeySetAppend(rs: seq<Record>, r: Record)
    ensures KeySet(rs + [r]) == KeySet(rs) + {Key(r)}
  {
    assert (rs + [r])[..|rs|] == rs;
  }

  /** The key set of two lists one after the other is the union of their key sets. */
  lemma {:induction false} KeySetConcat(xs: seq<Record>, ys: seq<Record>)
    ensures KeySet(xs + ys) == KeySet(xs) + KeySet(ys)
    decreases |ys|
  {
    if ys == [] {
      assert xs + ys == xs;
    } else {
      var init, last := ys[..|ys| - 1], ys[|ys| - 1];
      assert xs + ys == (xs + init) + [last];
      assert KeySet(ys) == KeySet(init) + {Key(last)};
      KeySetAppend(xs + init, last);
      KeySetConcat(xs, init);
    }
  }

  /** Appending a record whose key is new keeps the keys distinct. */
  lemma NoDupKeysAppend(rs: seq<Record>, r: Record)
    requires NoDupKeys(rs) && Key(r) !in KeySet(rs)
    ensures NoDupKeys(rs + [r])
  {
    forall i | 0 <= i < |rs| ensures Key(rs[i]) != Key(r) {
      KeySetMembership(rs, Key(r));
    }
  }

  /** With distinct keys there are as many keys as records. */
  lemma {:induction false} NoDupKeysCount(rs: seq<Record>)
    requires NoDupKeys(rs)
    ensures |KeySet(rs)| == |rs|
    decreases |rs|
  {
    if rs != [] {
      var init := rs[..|rs| - 1];
      var last := rs[|rs| - 1];
      assert NoDupKeys(init);
      NoDupKeysCount(init);
      forall i | 0 <= i < |init| ensures Key(init[i]) != Key(last) {
        assert init[i] == rs[i];
      }
      KeySetMembership(init, Key(last));
    }
  }

  /** The extraction date is not part of the key. */
  lemma KeyIgnoresExtractedAt(r: Record, at: Option<string>)
    ensures Key(r.(extractedAt := at)) == Key(r)
  {
  }

  /**
    The key is not injective: two records with different fields share a key, so the
    second one counts as a duplicate.
  */
  lemma KeyCollides()
    ensures Key(Record("a_b", "c", "t", None)) == Key(Record("a", "b_c", "t", None))
  {
    assert "a_b" + "_" + "c" + "_" + "t" == "a" + "_" + "b_c" + "_" + "t";
  }
}
