/** Splitting text at a separator. */
module Strings {
  /** `str::split` by one character: always at least one part. */
  function Split(s: string, separator: char): (parts: seq<string>)
    ensures |parts| >= 1
  {
    if s == "" then [""]
    else
      var rest := Split(s[1..], separator);
      if s[0] == separator then [""] + rest
      else [[s[0]] + rest[0]] + rest[1..]
  }

  lemma {:induction false} SplitParts(s: string, separator: char)
    ensures forall i :: 0 <= i < |Split(s, separator)| ==>
              separator !in Split(s, separator)[i] && forall c :: c in Split(s, separator)[i] ==> c in s
  {
    if s != "" {
      SplitParts(s[1..], separator);
    }
  }

  lemma {:induction false} SplitWhole(s: string, separator: char)
    requires separator !in s
    ensures Split(s, separator) == [s]
  {
    if s != "" {
      SplitWhole(s[1..], separator);
      assert [s[0]] + s[1..] == s;
    }
  }

  lemma SplitStep(s: string, separator: char)
    requires s != ""
    ensures Split(s, separator) ==
            var rest := Split(s[1..], separator);
            if s[0] == separator then [""] + rest else [[s[0]] + rest[0]] + rest[1..]
  {
  }

  lemma {:induction false} SplitConcat(a: string, b: string, separator: char)
    ensures Split(a + [separator] + b, separator) == Split(a, separator) + Split(b, separator)
  {
    var whole := a + [separator] + b;
    if a == "" {
      assert whole[0] == separator && whole[1..] == b;
    } else {
      SplitConcat(a[1..], b, separator);
      assert whole[0] == a[0] && whole[1..] == a[1..] + [separator] + b;
      SplitStep(whole, separator);
      SplitStep(a, separator);
      HeadThenRest(a[0], Split(a[1..], separator), Split(b, separator));
    }
  }

  lemma HeadThenRest(c: char, left: seq<string>, right: seq<string>)
    requires |left| >= 1
    ensures [""] + (left + right) == ([""] + left) + right
    ensures [[c] + (left + right)[0]] + (left + right)[1..] == [[c] + left[0]] + left[1..] + right
  {
    assert (left + right)[0] == left[0];
    assert (left + right)[1..] == left[1..] + right;
  }
}
