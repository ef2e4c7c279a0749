/** Lexical order on names, and the sorted listing of a set of names. */
module Sorting {

  predicate LessEq(a: string, b: string) {
    if a == "" then true
    else if b == "" then false
    else if a[0] == b[0] then LessEq(a[1..], b[1..])
    else a[0] < b[0]
  }

  lemma {:induction false} LessEqTotal(a: string, b: string)
    ensures LessEq(a, b) || LessEq(b, a)
    ensures LessEq(a, b) && LessEq(b, a) ==> a == b
  {
    if a != "" && b != "" {
      LessEqTotal(a[1..], b[1..]);
      assert a == [a[0]] + a[1..] && b == [b[0]] + b[1..];
    }
  }

  lemma {:induction false} LessEqTransitive(a: string, b: string, c: string)
    requires LessEq(a, b) && LessEq(b, c)
    ensures LessEq(a, c)
  {
    if a != "" && b != "" && c != "" && a[0] == b[0] == c[0] {
      LessEqTransitive(a[1..], b[1..], c[1..]);
    }
  }

  ghost predicate IsLeast(least: string, names: set<string>) {
    least in names && forall name :: name in names ==> LessEq(least, name)
  }

  lemma {:induction false} LeastExists(names: set<string>)
    requires names != {}
    ensures exists least :: IsLeast(least, names)
  {
    var pick :| pick in names;
    LessEqTotal(pick, pick);
    if names - {pick} != {} {
      LeastExists(names - {pick});
      var least :| IsLeast(least, names - {pick});
      LessEqTotal(pick, least);
      if LessEq(pick, least) {
        forall name | name in names
          ensures LessEq(pick, name)
        {
          if name != pick {
            LessEqTransitive(pick, least, name);
          }
        }
        assert IsLeast(pick, names);
      } else {
        assert IsLeast(least, names);
      }
    } else {
      assert names == {pick};
      assert IsLeast(pick, names);
    }
  }

  lemma LeastUnique(names: set<string>)
    ensures forall a, b
              | a in names && (forall name :: name in names ==> LessEq(a, name))
                && b in names && (forall name :: name in names ==> LessEq(b, name)) :: a == b
  {
    forall a, b | a in names && b in names
      ensures LessEq(a, b) && LessEq(b, a) ==> a == b
    {
      LessEqTotal(a, b);
    }
  }

  function Least(names: set<string>): (least: string)
    requires names != {}
    ensures IsLeast(least, names)
  {
    LeastExists(names);
    LeastUnique(names);
    var least :| least in names && forall name :: name in names ==> LessEq(least, name);
    least
  }

  /** The names in lexical order, each exactly once. */
  function Sorted(names: set<string>): (list: seq<string>)
    ensures forall name :: name in list <==> name in names
    ensures forall i, j :: 0 <= i < j < |list| ==> list[i] != list[j] && LessEq(list[i], list[j])
  {
    if names == {} then []
    else
      var least := Least(names);
      [least] + Sorted(names - {least})
  }
}
