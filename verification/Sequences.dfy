/** Sequence facts that the models share. */
module Sequences {

  function Flatten<T>(parts: seq<seq<T>>): seq<T> {
    if parts == [] then [] else parts[0] + Flatten(parts[1..])
  }

  lemma {:induction false} FlattenAppend<T>(a: seq<seq<T>>, b: seq<seq<T>>)
    ensures Flatten(a + b) == Flatten(a) + Flatten(b)
  {
    if a == [] {
      assert a + b == b;
    } else {
      assert (a + b)[1..] == a[1..] + b;
      FlattenAppend(a[1..], b);
    }
  }

  lemma FlattenOne<T>(a: seq<T>)
    ensures Flatten([a]) == a
  {
    assert Flatten<T>([a][1..]) == [];
  }

  lemma Regroup<T>(a: seq<T>, b: seq<T>, c: seq<T>)
    ensures a + b + c == a + (b + c)
  {
  }

  lemma SliceOfPrefix<T>(s: seq<T>, n: nat, from: nat, to: nat)
    requires from <= to <= n <= |s|
    ensures s[..n][from..to] == s[from..to]
  {
  }

  /** What is left of a sequence without the elements at its ends that are dropped. */
  function Trim<T>(s: seq<T>, drops: T -> bool): seq<T>
    decreases |s|
  {
    if s == [] then []
    else if drops(s[0]) then Trim(s[1..], drops)
    else if drops(s[|s| - 1]) then Trim(s[..|s| - 1], drops)
    else s
  }

  /** Trimming drops all elements of a kind at both ends and no others. */
  lemma {:induction false} TrimExactly<T>(s: seq<T>, drops: T -> bool) returns (i: nat, j: nat)
    ensures i <= j <= |s| && Trim(s, drops) == s[i..j]
    ensures forall k | 0 <= k < i || j <= k < |s| :: drops(s[k])
    ensures i < j ==> !drops(s[i]) && !drops(s[j - 1])
    decreases |s|
  {
    i, j := 0, |s|;
    if s == [] {
    } else if drops(s[0]) {
      i, j := TrimExactly(s[1..], drops);
      i, j := i + 1, j + 1;
    } else if drops(s[|s| - 1]) {
      i, j := TrimExactly(s[..|s| - 1], drops);
    }
  }

  /** One more element to drop at an end changes nothing. */
  lemma {:induction false} TrimAtEnds<T>(s: seq<T>, drops: T -> bool, x: T)
    requires drops(x)
    ensures Trim([x] + s, drops) == Trim(s, drops) == Trim(s + [x], drops)
    decreases |s|
  {
    assert ([x] + s)[1..] == s && (s + [x])[..|s|] == s;
    if s != [] && drops(s[0]) {
      TrimAtEnds(s[1..], drops, x);
      assert (s + [x])[1..] == s[1..] + [x];
    }
  }

  /** The last n elements of s, or all of s if it is shorter. */
  function Last<T>(s: seq<T>, n: nat): (r: seq<T>)
    ensures |r| == if |s| <= n then |s| else n
  {
    if |s| <= n then s else s[|s| - n..]
  }
}
