/** The parse-or-skip filter of the collecting loop, over any reader: each
    item is read on its own, what reads is kept in order, what does not is
    dropped. */
module Collect {
  import opened Options

  /** The values `read` finds in `items`, in their order; never more values
      than items. */
  function Kept<T, V>(items: seq<T>, read: T -> Option<V>): (r: seq<V>)
    ensures |r| <= |items|
  {
    if items == [] then []
    else
      Kept(items[..|items| - 1], read) + match read(items[|items| - 1]) case None => [] case Some(v) => [v]
  }

  /** A single item gives its value, or nothing. */
  lemma KeptOne<T, V>(item: T, read: T -> Option<V>)
    ensures read(item).None? ==> Kept([item], read) == []
    ensures read(item).Some? ==> Kept([item], read) == [read(item).value]
  {
    assert [item][..0] == [];
  }

  /** An item that does not read is skipped: removing it from anywhere in
      the run leaves the values unchanged. */
  lemma KeptSkip<T, V>(a: seq<T>, item: T, b: seq<T>, read: T -> Option<V>)
    requires read(item).None?
    ensures Kept(a + [item] + b, read) == Kept(a + b, read)
  {
    KeptConcat(a + [item], b, read);
    KeptConcat(a, [item], read);
    KeptConcat(a, b, read);
    KeptOne(item, read);
    assert Kept(a, read) + [] == Kept(a, read);
  }

  /** Reading two runs of items one after the other: the values of the first
      run, then those of the second. */
  lemma {:induction false} KeptConcat<T, V>(a: seq<T>, b: seq<T>, read: T -> Option<V>)
    ensures Kept(a + b, read) == Kept(a, read) + Kept(b, read)
    decreases |b|
  {
    if b == [] {
      assert a + b == a;
    } else {
      var b' := b[..|b| - 1];
      assert (a + b)[..|a + b| - 1] == a + b';
      assert (a + b)[|a + b| - 1] == b[|b| - 1];
      KeptConcat(a, b', read);
    }
  }

  /** A value is kept exactly when some item reads as it. */
  lemma {:induction false} KeptMembership<T, V>(items: seq<T>, read: T -> Option<V>, v: V)
    ensures v in Kept(items, read) <==> exists i :: 0 <= i < |items| && read(items[i]) == Some(v)
  {
    if items != [] {
      var init, last := items[..|items| - 1], items[|items| - 1];
      KeptMembership(init, read, v);
      assert v in Kept(items, read) <==> v in Kept(init, read) || read(last) == Some(v);
      assert forall i :: 0 <= i < |init| ==> items[i] == init[i];
      assert items == init + [last];
    }
  }

  /** Nothing is kept exactly when no item reads. */
  lemma {:induction false} KeptEmpty<T, V>(items: seq<T>, read: T -> Option<V>)
    ensures Kept(items, read) == [] <==> forall i :: 0 <= i < |items| ==> read(items[i]).None?
  {
    if items != [] {
      var init := items[..|items| - 1];
      KeptEmpty(init, read);
      if Kept(items, read) == [] {
        forall i | 0 <= i < |items| ensures read(items[i]).None? {
          if i < |init| {
            assert init[i] == items[i];
          }
        }
      } else if Kept(init, read) != [] {
        var i :| 0 <= i < |init| && read(init[i]).Some?;
        assert items[i] == init[i];
      }
    }
  }

}
