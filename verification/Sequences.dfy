/** List helpers the modules share. */
module Sequences {

  /** The lists a function gives for the items, end to end. */
  function Flatten<A, B>(items: seq<A>, f: A -> seq<B>): seq<B>
  {
    if items == [] then [] else f(items[0]) + Flatten(items[1..], f)
  }

  lemma {:induction false} FlattenConcat<A, B>(a: seq<A>, b: seq<A>, f: A -> seq<B>)
    ensures Flatten(a + b, f) == Flatten(a, f) + Flatten(b, f)
  {
    if a == [] {
      assert a + b == b;
      assert [] + Flatten(b, f) == Flatten(b, f);
    } else {
      FlattenConcat(a[1..], b, f);
      assert (a + b)[1..] == a[1..] + b;
      ConcatAssociates(f(a[0]), Flatten(a[1..], f), Flatten(b, f));
    }
  }

  lemma ConcatAssociates<B>(a: seq<B>, b: seq<B>, c: seq<B>)
    ensures a + (b + c) == (a + b) + c
  {
  }

  lemma FlattenOne<A, B>(item: A, f: A -> seq<B>)
    ensures Flatten([item], f) == f(item)
  {
    assert [item][1..] == [];
    assert f(item) + [] == f(item);
  }

  lemma FlattenSnoc<A, B>(items: seq<A>, last: A, f: A -> seq<B>)
    ensures Flatten(items + [last], f) == Flatten(items, f) + f(last)
  {
    FlattenConcat(items, [last], f);
    FlattenOne(last, f);
  }

  lemma {:induction false} FlattenNothing<A, B>(items: seq<A>, f: A -> seq<B>)
    requires forall k | 0 <= k < |items| :: f(items[k]) == []
    ensures Flatten(items, f) == []
  {
    if items != [] {
      assert f(items[0]) == [];
      FlattenNothing(items[1..], f);
    }
  }

  // ---------------------------------------------------------------- splitting

  /** The stretches between separators; always at least one. */
  function SplitWhere<T>(s: seq<T>, isSep: T -> bool): (pieces: seq<seq<T>>)
    ensures |pieces| >= 1
  {
    if s == [] then [[]]
    else
      var rest := SplitWhere(s[1..], isSep);
      if isSep(s[0]) then [[]] + rest
      else [[s[0]] + rest[0]] + rest[1..]
  }

  /** The pieces of two texts set end to end: the last piece of the left meets the first of the right. */
  function Glue<T>(left: seq<seq<T>>, right: seq<seq<T>>): seq<seq<T>>
    requires |left| >= 1 && |right| >= 1
  {
    left[..|left| - 1] + [left[|left| - 1] + right[0]] + right[1..]
  }

  lemma GlueAfterSeparator<T>(rest: seq<seq<T>>, right: seq<seq<T>>)
    requires |rest| >= 1 && |right| >= 1
    ensures Glue([[]] + rest, right) == [[]] + Glue(rest, right)
  {
    var left := [[]] + rest;
    assert left[..|left| - 1] == [[]] + rest[..|rest| - 1];
    assert left[|left| - 1] == rest[|rest| - 1];
  }

  lemma GlueAfterItem<T>(x: T, rest: seq<seq<T>>, right: seq<seq<T>>)
    requires |rest| >= 1 && |right| >= 1
    ensures var glued := Glue(rest, right);
            Glue([[x] + rest[0]] + rest[1..], right) == [[x] + glued[0]] + glued[1..]
  {
    var left := [[x] + rest[0]] + rest[1..];
    if |rest| == 1 {
      assert left == [[x] + rest[0]];
      assert [x] + (rest[0] + right[0]) == ([x] + rest[0]) + right[0];
    } else {
      assert left[..|left| - 1] == [[x] + rest[0]] + rest[1..|rest| - 1];
      assert rest[..|rest| - 1] == [rest[0]] + rest[1..|rest| - 1];
    }
  }

  /** Appending changes the last piece and adds pieces after it; the earlier pieces stay. */
  lemma {:induction false} SplitConcat<T>(left: seq<T>, right: seq<T>, isSep: T -> bool)
    ensures SplitWhere(left + right, isSep) == Glue(SplitWhere(left, isSep), SplitWhere(right, isSep))
  {
    var r := SplitWhere(right, isSep);
    if left == [] {
      assert left + right == right;
      assert r == [r[0]] + r[1..];
      assert [] + r[0] == r[0];
    } else {
      SplitConcat(left[1..], right, isSep);
      assert (left + right)[1..] == left[1..] + right;
      if isSep(left[0]) {
        GlueAfterSeparator(SplitWhere(left[1..], isSep), r);
      } else {
        GlueAfterItem(left[0], SplitWhere(left[1..], isSep), r);
      }
    }
  }

  /** A text ends inside its last piece exactly when it is not empty and does not end in a separator. */
  lemma {:induction false} LastPiece<T>(s: seq<T>, isSep: T -> bool)
    ensures var pieces := SplitWhere(s, isSep);
            pieces[|pieces| - 1] == [] <==> s == [] || isSep(s[|s| - 1])
  {
    if |s| > 1 {
      LastPiece(s[1..], isSep);
    }
  }
}
