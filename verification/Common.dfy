/** What several components share. */
module Common {

  datatype Option<+T> = None | Some(value: T)

  /** A text without newlines. */
  predicate OneLine(s: string) {
    '\n' !in s
  }

  lemma Assoc<T>(a: seq<T>, b: seq<T>, c: seq<T>)
    ensures (a + b) + c == a + (b + c)
  {
  }

  lemma TakeNext<T>(s: seq<T>, i: nat)
    requires i < |s|
    ensures s[..i + 1] == s[..i] + [s[i]]
  {
  }

  // ---- Sums ----

  function Total<T>(cost: T -> nat, xs: seq<T>): nat {
    if xs == [] then 0 else cost(xs[0]) + Total(cost, xs[1..])
  }

  lemma {:induction false} TotalUpdate<T>(cost: T -> nat, xs: seq<T>, i: nat, x: T)
    requires i < |xs|
    ensures Total(cost, xs[i := x]) == Total(cost, xs) - cost(xs[i]) + cost(x)
  {
    if i > 0 {
      TotalUpdate(cost, xs[1..], i - 1, x);
      assert xs[i := x][1..] == xs[1..][i - 1 := x];
    } else {
      assert xs[0 := x][1..] == xs[1..];
    }
  }

  lemma {:induction false} TotalAppend<T>(cost: T -> nat, xs: seq<T>, x: T)
    ensures Total(cost, xs + [x]) == Total(cost, xs) + cost(x)
  {
    if xs == [] {
      assert [] + [x] == [x];
    } else {
      TotalAppend(cost, xs[1..], x);
      assert (xs + [x])[1..] == xs[1..] + [x];
    }
  }

  lemma {:induction false} TotalZeroIff<T>(cost: T -> nat, xs: seq<T>)
    ensures Total(cost, xs) == 0 <==> forall i :: 0 <= i < |xs| ==> cost(xs[i]) == 0
  {
    if xs != [] {
      TotalZeroIff(cost, xs[1..]);
      assert xs == [xs[0]] + xs[1..];
    }
  }
}
