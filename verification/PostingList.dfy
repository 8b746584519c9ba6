/** Posting lists: the ids under one index value, sorted and joined with NULs (`upsetIndex` of
    src/plan/mutate/UpsetPlan.cpp with `split` and `merge` of src/gutil.cpp). */
module PostingList {
  import opened SortedLists

  // -------------------------------------------------------------------- splitting and merging

  /** Position of the first delimiter, or the length. */
  function Position(s: string, delim: char): (k: nat)
    ensures k <= |s| && (k < |s| ==> s[k] == delim) && delim !in s[..k]
  {
    if s == "" || s[0] == delim then 0
    else
      var k := Position(s[1..], delim);
      assert s[..k + 1] == [s[0]] + s[1..][..k];
      k + 1
  }

  function Split(s: string, delim: char): seq<string> {
    if s == "" then []
    else
      var k := Position(s, delim);
      if k == |s| then [s] else [s[..k]] + Split(s[k + 1..], delim)
  }

  /** Every string followed by the delimiter. */
  function Glued(v: seq<string>, delim: char): (s: string)
    ensures v != [] ==> |s| > 0
  {
    if v == [] then "" else v[0] + [delim] + Glued(v[1..], delim)
  }

  function Merged(v: seq<string>, delim: char): string {
    if v == [] then "" else Glued(v, delim)[..|Glued(v, delim)| - 1]
  }

  predicate Free(v: seq<string>, delim: char) {
    forall i :: 0 <= i < |v| ==> delim !in v[i]
  }

  method SplitAll(str: string, delim: char) returns (result: seq<string>)
    ensures result == Split(str, delim)
  {
    hide Split;
    result := [];
    var first, itr := 0, 0;
    assert str[0..] == str;
    while itr < |str|
      invariant first <= itr <= |str|
      invariant delim !in str[first..itr]
      invariant result + Split(str[first..], delim) == Split(str, delim)
    {
      if str[itr] == delim {
        SplitFrom(str, first, itr, delim);
        ghost var before := result;
        result := result + [str[first..itr]];
        itr := itr + 1;
        assert before + ([str[first..itr - 1]] + Split(str[itr..], delim)) == result + Split(str[itr..], delim);
        first := itr;
      } else {
        assert str[first..itr + 1] == str[first..itr] + [str[itr]];
        itr := itr + 1;
      }
    }
    SplitRest(str, first, delim);
    if first < |str| {
      result := result + [str[first..]];
    }
  }

  lemma SplitFrom(str: string, first: nat, itr: nat, delim: char)
    requires first <= itr < |str| && str[itr] == delim && delim !in str[first..itr]
    ensures Split(str[first..], delim) == [str[first..itr]] + Split(str[itr + 1..], delim)
  {
    var s, k := str[first..], itr - first;
    assert s[..k] == str[first..itr] && s[k + 1..] == str[itr + 1..];
    hide Split;
    SplitAt(s, k, delim);
  }

  lemma SplitRest(str: string, first: nat, delim: char)
    requires first <= |str| && delim !in str[first..|str|]
    ensures Split(str[first..], delim) == if first < |str| then [str[first..]] else []
  {
    assert str[first..|str|] == str[first..];
    if first < |str| {
      SplitEnd(str[first..], delim);
    }
  }

  lemma SplitAt(s: string, k: nat, delim: char)
    requires k < |s| && s[k] == delim && delim !in s[..k]
    ensures Split(s, delim) == [s[..k]] + Split(s[k + 1..], delim)
  {
    PositionIs(s, k, delim);
  }

  lemma {:induction false} PositionIs(s: string, k: nat, delim: char)
    requires k < |s| && s[k] == delim && delim !in s[..k]
    ensures Position(s, delim) == k
  {
    if k > 0 {
      assert s[0] == s[..k][0];
      assert s[..k][1..] == s[1..][..k - 1];
      PositionIs(s[1..], k - 1, delim);
    }
  }

  lemma SplitEnd(s: string, delim: char)
    requires s != "" && delim !in s
    ensures Split(s, delim) == [s]
  {
  }

  method Merge(data: seq<string>, delim: char) returns (s: string)
    ensures s == Merged(data, delim)
  {
    s := "";
    for i := 0 to |data|
      invariant s + Glued(data[i..], delim) == Glued(data, delim)
    {
      assert data[i..][1..] == data[i + 1..];
      assert s + (data[i] + [delim] + Glued(data[i + 1..], delim))
          == s + (data[i] + [delim]) + Glued(data[i + 1..], delim);
      s := s + (data[i] + [delim]);
    }
    assert data[|data|..] == [];
    if |s| > 0 {
      s := s[..|s| - 1];
    }
  }

  lemma MergedOfMore(v: seq<string>, delim: char)
    requires |v| > 1
    ensures Merged(v, delim) == v[0] + [delim] + Merged(v[1..], delim)
  {
  }

  /** Joining one string more puts the delimiter and the string behind. */
  lemma {:induction false} MergedGrows(v: seq<string>, x: string, delim: char)
    ensures Merged([], delim) == "" && Merged([x], delim) == x
    ensures v != [] ==> Merged(v + [x], delim) == Merged(v, delim) + [delim] + x
  {
    hide Merged;
    MergedOfFew(x, delim);
    if |v| == 1 {
      assert (v + [x])[1..] == [x] && v == [v[0]];
      MergedOfMore(v + [x], delim);
      MergedOfFew(v[0], delim);
    } else if v != [] {
      MergedGrows(v[1..], x, delim);
      assert (v + [x])[1..] == v[1..] + [x];
      MergedOfMore(v + [x], delim);
      MergedOfMore(v, delim);
    }
  }

  lemma MergedOfFew(x: string, delim: char)
    ensures Merged([], delim) == "" && Merged([x], delim) == x
  {
    assert Glued([x], delim) == x + [delim] + "";
  }

  function WithoutEmptyEnd(v: seq<string>): seq<string> {
    if v != [] && v[|v| - 1] == "" then v[..|v| - 1] else v
  }

  /** Splitting undoes merging, but for an empty string at the end. */
  lemma {:induction false} SplitOfMerged(v: seq<string>, delim: char)
    requires Free(v, delim)
    ensures Split(Merged(v, delim), delim) == WithoutEmptyEnd(v)
  {
    if |v| == 1 {
      SplitOfOne(v[0], delim);
      assert v == [v[0]];
    } else if |v| > 1 {
      SplitOfMerged(v[1..], delim);
      SplitOfMore(v, delim);
    }
  }

  lemma SplitOfOne(s: string, delim: char)
    requires delim !in s
    ensures Split(Merged([s], delim), delim) == WithoutEmptyEnd([s])
  {
    assert Glued([s], delim) == s + [delim] + "";
    assert Merged([s], delim) == s;
    if s != "" {
      SplitEnd(s, delim);
    }
  }

  lemma SplitOfMore(v: seq<string>, delim: char)
    requires |v| > 1 && delim !in v[0]
    requires Split(Merged(v[1..], delim), delim) == WithoutEmptyEnd(v[1..])
    ensures Split(Merged(v, delim), delim) == WithoutEmptyEnd(v)
  {
    hide Merged, Split;
    MergedOfMore(v, delim);
    var s := v[0] + [delim] + Merged(v[1..], delim);
    assert s[..|v[0]|] == v[0] && s[|v[0]| + 1..] == Merged(v[1..], delim);
    SplitAt(s, |v[0]|, delim);
    assert v == [v[0]] + v[1..];
    assert WithoutEmptyEnd(v) == [v[0]] + WithoutEmptyEnd(v[1..]);
  }

  /** So it undoes it exactly where the list does not end in an empty string. */
  lemma SplitUndoesMerge(v: seq<string>, delim: char)
    requires Free(v, delim)
    ensures Split(Merged(v, delim), delim) == v <==> (v == [] || v[|v| - 1] != "")
  {
    SplitOfMerged(v, delim);
  }

  lemma {:induction false} SplitIsFree(s: string, delim: char)
    ensures Free(Split(s, delim), delim)
    decreases |s|
  {
    if s != "" {
      var k := Position(s, delim);
      if k < |s| {
        SplitIsFree(s[k + 1..], delim);
      } else {
        assert s[..k] == s;
      }
    }
  }

  function WithoutDelimEnd(s: string, delim: char): string {
    if s != "" && s[|s| - 1] == delim then s[..|s| - 1] else s
  }

  /** Merging undoes splitting, but for a delimiter at the end. */
  lemma {:induction false} MergedOfSplit(s: string, delim: char)
    ensures Merged(Split(s, delim), delim) == WithoutDelimEnd(s, delim)
    decreases |s|
  {
    if s != "" {
      var k := Position(s, delim);
      if k == |s| {
        assert s[..k] == s;
        MergedOfOne(s, delim);
      } else {
        hide Merged, WithoutDelimEnd;
        var rest := s[k + 1..];
        MergedOfSplit(rest, delim);
        MergedOfHead(s[..k], rest, delim);
        assert s == s[..k] + [delim] + rest;
      }
    }
  }

  lemma MergedOfOne(s: string, delim: char)
    requires s != "" && delim !in s
    ensures Merged([s], delim) == s == WithoutDelimEnd(s, delim)
  {
    assert Glued([s], delim) == s + [delim] + "";
    assert s[|s| - 1] in s;
  }

  lemma MergedOfHead(head: string, rest: string, delim: char)
    requires Merged(Split(rest, delim), delim) == WithoutDelimEnd(rest, delim)
    ensures Merged([head] + Split(rest, delim), delim) == WithoutDelimEnd(head + [delim] + rest, delim)
  {
    hide Split, Merged, WithoutDelimEnd;
    var w := Split(rest, delim);
    var v := [head] + w;
    assert v[1..] == w;
    EndOfTail(head + [delim], rest, delim);
    if rest == "" {
      NothingSplits(delim);
      MergedAlone(head, delim);
    } else {
      SomethingSplits(rest, delim);
      MergedOfMore(v, delim);
    }
  }

  lemma EndOfTail(head: string, rest: string, delim: char)
    ensures WithoutDelimEnd(head + rest, delim) == if rest == "" then WithoutDelimEnd(head, delim)
            else head + WithoutDelimEnd(rest, delim)
  {
    if rest == "" {
      assert head + rest == head;
    } else {
      assert head + rest[..|rest| - 1] == (head + rest)[..|head + rest| - 1];
    }
  }

  lemma MergedAlone(head: string, delim: char)
    ensures Merged([head] + [], delim) == head == WithoutDelimEnd(head + [delim], delim)
  {
    assert [head] + [] == [head];
    assert Glued([head], delim) == head + [delim] + "";
  }

  lemma NothingSplits(delim: char)
    ensures Split("", delim) == []
  {
  }

  lemma SomethingSplits(s: string, delim: char)
    requires s != ""
    ensures Split(s, delim) != []
  {
  }

  // -------------------------------------------------------------------- order

  /** `std::string`'s order: by characters, a prefix first. */
  predicate Below(a: string, b: string) {
    b != "" && (a == "" || a[0] < b[0] || (a[0] == b[0] && Below(a[1..], b[1..])))
  }

  /** One string is a proper start of the other, or has the smaller character where they first differ. */
  ghost predicate Lexical(a: string, b: string) {
    a < b || exists k: nat :: SmallerAt(a, b, k)
  }

  predicate SmallerAt(a: string, b: string, k: nat) {
    k < |a| && k < |b| && a[..k] == b[..k] && a[k] < b[k]
  }

  /** The order that is used is the one by first difference. */
  lemma {:induction false} BelowIsLexical(a: string, b: string)
    ensures Below(a, b) <==> Lexical(a, b)
  {
    if a == "" || b == "" {
    } else if a[0] != b[0] {
      DiffersAtOnce(a, b);
    } else {
      BelowIsLexical(a[1..], b[1..]);
      LexicalRest(a, b);
    }
  }

  lemma DiffersAtOnce(a: string, b: string)
    requires a != "" && b != "" && a[0] != b[0]
    ensures Lexical(a, b) <==> a[0] < b[0]
  {
    assert SmallerAt(a, b, 0) <==> a[0] < b[0];
    if k: nat :| SmallerAt(a, b, k) {
      assert k > 0 ==> a[..k][0] == b[..k][0];
    }
  }

  lemma LexicalRest(a: string, b: string)
    requires a != "" && b != "" && a[0] == b[0]
    ensures Lexical(a, b) <==> Lexical(a[1..], b[1..])
  {
    assert a == [a[0]] + a[1..] && b == [b[0]] + b[1..];
    if k: nat :| SmallerAt(a, b, k) {
      assert k > 0;
      assert a[1..][..k - 1] == a[..k][1..] && b[1..][..k - 1] == b[..k][1..];
      assert SmallerAt(a[1..], b[1..], k - 1);
    }
    if k: nat :| SmallerAt(a[1..], b[1..], k) {
      assert a[..k + 1] == [a[0]] + a[1..][..k] && b[..k + 1] == [b[0]] + b[1..][..k];
      assert SmallerAt(a, b, k + 1);
    }
  }

  lemma {:induction false} BelowIsIrreflexive(a: string)
    ensures !Below(a, a)
  {
    if a != "" {
      BelowIsIrreflexive(a[1..]);
    }
  }

  lemma {:induction false} BelowIsTransitive(a: string, b: string, c: string)
    requires Below(a, b) && Below(b, c)
    ensures Below(a, c)
  {
    if a != "" && a[0] == b[0] == c[0] {
      BelowIsTransitive(a[1..], b[1..], c[1..]);
    }
  }

  lemma {:induction false} BelowIsTotal(a: string, b: string)
    ensures a == b || Below(a, b) || Below(b, a)
  {
    if a != "" && b != "" && a[0] == b[0] {
      BelowIsTotal(a[1..], b[1..]);
      assert a == [a[0]] + a[1..] && b == [b[0]] + b[1..];
    }
  }

  lemma BelowIsOrder()
    ensures StrictOrder(Below)
  {
    forall a
      ensures !Below(a, a)
    {
      BelowIsIrreflexive(a);
    }
    forall a, b, c | Below(a, b) && Below(b, c)
      ensures Below(a, c)
    {
      BelowIsTransitive(a, b, c);
    }
    forall a, b
      ensures a == b || Below(a, b) || Below(b, a)
    {
      BelowIsTotal(a, b);
    }
  }

  // -------------------------------------------------------------------- index

  const NUL: char := '\0'

  function Upserted(data: string, id: string): string {
    Merged(Inserted(Split(data, NUL), id, Below), NUL)
  }

  /** The id goes before the first one that is not smaller, by first difference, unless it stands there. */
  ghost predicate PutIn(v: seq<string>, id: string, w: seq<string>) {
    exists k: nat :: k <= |v| && PutAt(v, id, k) && w == if k < |v| && v[k] == id then v else v[..k] + [id] + v[k..]
  }

  ghost predicate PutAt(v: seq<string>, id: string, k: nat)
    requires k <= |v|
  {
    (forall i :: 0 <= i < k ==> Lexical(v[i], id)) && (k < |v| ==> !Lexical(v[k], id))
  }

  lemma PutInOrder(v: seq<string>, id: string)
    ensures PutIn(v, id, Inserted(v, id, Below))
  {
    hide Below, Lexical;
    var k := LowerBound(v, id, Below);
    forall i | 0 <= i < |v|
      ensures Below(v[i], id) <==> Lexical(v[i], id)
    {
      BelowIsLexical(v[i], id);
    }
    assert PutAt(v, id, k);
  }

  /** The index: stored bytes by value; a value without an entry reads as empty. */
  class Index {
    var store: map<string, string>

    function Read(value: string): string
      reads this
    {
      if value in store then store[value] else ""
    }

    method UpsetIndex(value: string, id: string)
      modifies this
      ensures store == old(store)[value := Upserted(old(Read(value)), id)]
      ensures exists w ::
                && PutIn(Split(if value in old(store) then old(store)[value] else "", '\0'), id, w)
                && store == old(store)[value := Merged(w, '\0')]
    {
      PutInOrder(Split(Read(value), NUL), id);
      var data := Read(value);
      var v := SplitAll(data, NUL);
      var exist, w := AddUniqueDataAndSort(v, id, Below);
      data := Merge(w, NUL);
      store := store[value := data];
    }
  }

  /** What is stored after inserting ids one after the other. */
  function Stored(ids: seq<string>): string {
    if ids == [] then "" else Upserted(Stored(ids[..|ids| - 1]), ids[|ids| - 1])
  }

  /** The ids that come back: all but an empty one that was inserted before any other. */
  function Kept(ids: seq<string>): set<string> {
    if ids == [] then {}
    else
      var before, id := Kept(ids[..|ids| - 1]), ids[|ids| - 1];
      if id == "" && before == {} then {} else before + {id}
  }

  ghost predicate Holds(list: seq<string>, kept: set<string>) {
    forall x :: x in list <==> x in kept
  }

  /** A sorted list that can come back from the store: not the empty id alone, which leaves no bytes. */
  ghost predicate Listed(v: seq<string>) {
    StrictlySorted(v, Below) && Free(v, NUL) && v != [""]
  }

  /** One insertion into a stored list. */
  lemma UpsertedSplits(data: string, id: string)
    requires NUL !in id && Listed(Split(data, NUL))
    ensures
      var v, w := Split(data, NUL), Split(Upserted(data, id), NUL);
      Listed(w) && w == (if id == "" && v == [] then [] else Inserted(v, id, Below))
        && Upserted(data, id) == Merged(w, NUL)
  {
    hide Split, Merged, Inserted, Below, StrictOrder;
    var v := Split(data, NUL);
    var w := Inserted(v, id, Below);
    BelowIsOrder();
    InsertedIsSorted(v, id, Below);
    InsertedIsFree(v, id, w);
    SplitOfMerged(w, NUL);
    LastIsEmpty(v, id, w);
    MergedGrows([], "", NUL);
    if v == [] {
      InsertedFirst(id);
    }
  }

  lemma InsertedFirst(id: string)
    ensures Inserted([], id, Below) == [id]
  {
  }

  lemma InsertedIsFree(v: seq<string>, id: string, w: seq<string>)
    requires Free(v, NUL) && NUL !in id
    requires forall y :: y in w <==> y == id || y in v
    ensures Free(w, NUL) && w != []
  {
    assert id in w;
    forall i | 0 <= i < |w|
      ensures NUL !in w[i]
    {
      assert w[i] in w;
    }
  }

  /** A sorted list ends in the empty id only if that is all there is. */
  lemma LastIsEmpty(v: seq<string>, id: string, w: seq<string>)
    requires StrictlySorted(v, Below) && v != [""]
    requires StrictlySorted(w, Below) && w != []
    requires forall y :: y in w <==> y == id || y in v
    ensures w[|w| - 1] == "" <==> w == [""]
    ensures w == [""] <==> id == "" && v == []
  {
    if w[|w| - 1] == "" {
      EmptyIsFirst(w);
    }
    if w == [""] {
      assert id in w;
      if v != [] {
        assert v[|v| - 1] in w && v[0] in w;
        EmptyIsFirst(v);
      }
    }
    if id == "" && v == [] {
      assert forall i :: 0 <= i < |w| ==> w[i] in w;
      EmptyIsFirst(w);
    }
  }

  lemma EmptyIsFirst(w: seq<string>)
    requires StrictlySorted(w, Below) && w != [] && w[|w| - 1] == ""
    ensures |w| == 1
  {
    assert |w| > 1 ==> Below(w[0], w[|w| - 1]);
  }

  /** After any insertions of ids without NULs the stored bytes split to a strictly sorted list of exactly the
      ids kept. */
  lemma {:induction false} StoredSplits(ids: seq<string>)
    requires Free(ids, NUL)
    ensures Listed(Split(Stored(ids), NUL))
    ensures Holds(Split(Stored(ids), NUL), Kept(ids))
    ensures Stored(ids) == Merged(Split(Stored(ids), NUL), NUL)
  {
    if ids != [] {
      var init, id := ids[..|ids| - 1], ids[|ids| - 1];
      StoredSplits(init);
      var v := Split(Stored(init), NUL);
      UpsertedSplits(Stored(init), id);
      BelowIsOrder();
      InsertedIsSorted(v, id, Below);
      assert v != [] ==> v[0] in Kept(init);
    }
  }

  ghost predicate SomeText(ids: seq<string>) {
    exists i :: 0 <= i < |ids| && ids[i] != ""
  }

  /** An empty id comes somewhere after another one. */
  ghost predicate LateEmpty(ids: seq<string>) {
    exists j :: 0 <= j < |ids| && ids[j] == "" && SomeText(ids[..j])
  }

  /** Every non-empty id is kept; the empty one exactly if it comes at some time after another. */
  lemma {:induction false} KeptExactly(ids: seq<string>)
    ensures forall x :: x in Kept(ids) <==> x in ids && (x != "" || LateEmpty(ids))
    ensures Kept(ids) == {} <==> !SomeText(ids)
  {
    if ids != [] {
      var n := |ids| - 1;
      var init, id := ids[..n], ids[n];
      KeptExactly(init);
      assert ids == init + [id];
      SomeTextGrows(init, id);
      LateEmptyGrows(init, id);
    }
  }

  lemma SomeTextGrows(init: seq<string>, id: string)
    ensures SomeText(init + [id]) <==> SomeText(init) || id != ""
  {
    var ids := init + [id];
    if SomeText(init) {
      var i :| 0 <= i < |init| && init[i] != "";
      assert ids[i] != "";
    }
    assert ids[|init|] == id;
  }

  lemma LateEmptyGrows(init: seq<string>, id: string)
    ensures LateEmpty(init + [id]) <==> LateEmpty(init) || (id == "" && SomeText(init))
  {
    hide SomeText;
    var ids := init + [id];
    assert ids[..|init|] == init && ids[|init|] == id;
    assert forall j :: 0 <= j < |init| ==> ids[j] == init[j] && ids[..j] == init[..j];
    if LateEmpty(init) {
      var j :| 0 <= j < |init| && init[j] == "" && SomeText(init[..j]);
      assert ids[j] == "" && SomeText(ids[..j]);
    }
    if LateEmpty(ids) {
      var j :| 0 <= j < |ids| && ids[j] == "" && SomeText(ids[..j]);
      if j < |init| {
        assert init[j] == "" && SomeText(init[..j]);
      }
    }
  }

  /** With ids that are not empty, the stored bytes are exactly the ids inserted, each once, in the order by first
      difference and with a NUL between them. */
  lemma StoredIsAllIds(ids: seq<string>)
    requires "" !in ids && forall i :: 0 <= i < |ids| ==> '\0' !in ids[i]
    ensures
      var w := Split(Stored(ids), '\0');
      && Stored(ids) == Merged(w, '\0')
      && (forall i, j :: 0 <= i < j < |w| ==> Lexical(w[i], w[j]))
      && forall x :: x in w <==> x in ids
  {
    hide Lexical, Below, Split, Merged;
    StoredSplits(ids);
    KeptExactly(ids);
    var w := Split(Stored(ids), NUL);
    forall i, j | 0 <= i < j < |w|
      ensures Lexical(w[i], w[j])
    {
      assert Below(w[i], w[j]);
      BelowIsLexical(w[i], w[j]);
    }
  }
}
