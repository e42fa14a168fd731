/** Slugs in code-point order: what Python's `sorted` gives for a dictionary keyed by strings. */
module Slugs {

  predicate Before(a: string, b: string)
  {
    b != "" && (a == "" || a[0] < b[0] || (a[0] == b[0] && Before(a[1..], b[1..])))
  }

  lemma {:induction false} BeforeTotal(a: string, b: string)
    ensures Before(a, b) || a == b || Before(b, a)
    ensures !(Before(a, b) && Before(b, a)) && (a == b ==> !Before(a, b))
  {
    if a != "" && b != "" && a[0] == b[0] {
      BeforeTotal(a[1..], b[1..]);
      assert a == [a[0]] + a[1..] && b == [b[0]] + b[1..];
    }
  }

  lemma {:induction false} BeforeTransitive(a: string, b: string, c: string)
    requires Before(a, b) && Before(b, c)
    ensures Before(a, c)
  {
    if a != "" && a[0] == b[0] == c[0] {
      BeforeTransitive(a[1..], b[1..], c[1..]);
    }
  }

  ghost predicate InOrder(slugs: seq<string>)
  {
    forall i, j | 0 <= i < j < |slugs| :: Before(slugs[i], slugs[j])
  }

  predicate First(slug: string, slugs: set<string>)
  {
    slug in slugs && forall other | other in slugs :: slug == other || Before(slug, other)
  }

  lemma {:induction false} FirstExists(slugs: set<string>)
    requires slugs != {}
    ensures exists first :: First(first, slugs)
  {
    hide Before;
    var some :| some in slugs;
    var others := slugs - {some};
    assert slugs == others + {some};
    if others == {} {
      assert First(some, slugs);
    } else {
      FirstExists(others);
      var rest :| First(rest, others);
      BeforeTotal(some, rest);
      if Before(rest, some) {
        assert First(rest, slugs);
      } else {
        forall other | other in others && other != rest ensures Before(some, other) {
          BeforeTransitive(some, rest, other);
        }
        assert First(some, slugs);
      }
    }
  }

  lemma FirstUnique(slugs: set<string>)
    ensures forall a, b | First(a, slugs) && First(b, slugs) :: a == b
  {
    forall a, b | First(a, slugs) && First(b, slugs) ensures a == b {
      BeforeTotal(a, b);
    }
  }

  function FirstOf(slugs: set<string>): (first: string)
    requires slugs != {}
    ensures First(first, slugs)
  {
    FirstExists(slugs);
    FirstUnique(slugs);
    var first :| First(first, slugs);
    first
  }

  function InSlugOrder(slugs: set<string>): (sorted: seq<string>)
    ensures forall slug :: slug in sorted <==> slug in slugs
    ensures InOrder(sorted)
  {
    if slugs == {} then []
    else
      var first := FirstOf(slugs);
      assert first in slugs;
      [first] + InSlugOrder(slugs - {first})
  }
}
