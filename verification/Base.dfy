// Octets, 32-bit words and small facts about sequences shared by the other modules.
module Base {

  const TWO31 := 0x8000_0000
  const TWO32 := 0x1_0000_0000

  type byte = x: int | 0 <= x < 256

  type u32 = x: int | 0 <= x < TWO32

  datatype Option<+T> = None | Some(value: T)

  ghost predicate Distinct<T(!new)>(s: seq<T>) {
    forall i, j :: 0 <= i < j < |s| ==> s[i] != s[j]
  }

  lemma TailOfConcat<T>(a: seq<T>, b: seq<T>)
    requires a != []
    ensures (a + b)[0] == a[0] && (a + b)[1..] == a[1..] + b
  {
  }

  lemma ConcatAssoc<T>(a: seq<T>, b: seq<T>, c: seq<T>)
    ensures a + b + c == a + (b + c)
  {
  }

  lemma TakeNext<T>(s: seq<T>, i: nat)
    requires i < |s|
    ensures s[..i + 1] == s[..i] + [s[i]]
  {
  }

  lemma ConcatEmpty<T>(s: seq<T>)
    ensures s + [] == s && [] + s == s
  {
  }

  // An element that occurs twice.
  lemma AtLeastTwo<T>(s: seq<T>, i: nat, j: nat)
    requires i < j < |s| && s[i] == s[j]
    ensures multiset(s)[s[i]] >= 2
  {
    assert s == s[..j] + s[j..];
    assert s[..j][i] == s[i] && s[j..][0] == s[j];
  }

  lemma {:induction false} FindTwo<T>(s: seq<T>, e: T) returns (i: nat, j: nat)
    requires multiset(s)[e] >= 2
    ensures i < j < |s| && s[i] == e && s[j] == e
  {
    var n := |s| - 1;
    var t := s[..n];
    assert s == t + [s[n]];
    if multiset(t)[e] >= 2 {
      i, j := FindTwo(t, e);
    } else {
      assert e in multiset(t);
      i, j := (var i :| 0 <= i < |t| && t[i] == e; i), n;
    }
  }

  // ------------------------------------------------ marked places in a row

  // The marked places from k on, in order.
  ghost function Picks(marks: seq<bool>, k: nat): (r: seq<nat>)
    ensures forall t :: 0 <= t < |r| ==> k <= r[t] < |marks| && marks[r[t]]
    ensures forall s, t :: 0 <= s < t < |r| ==> r[s] < r[t]
    decreases |marks| - k
  {
    if k >= |marks| then []
    else if marks[k] then [k] + Picks(marks, k + 1)
    else Picks(marks, k + 1)
  }

  // Every marked place is picked.
  lemma {:induction false} Picked(marks: seq<bool>, k: nat, m: nat) returns (t: nat)
    requires k <= m < |marks| && marks[m]
    ensures t < |Picks(marks, k)| && Picks(marks, k)[t] == m
    decreases m - k
  {
    t := 0;
    if k < m {
      t := Picked(marks, k + 1, m);
      if marks[k] {
        t := t + 1;
      }
    }
  }

  // Nothing marked lies between two neighbours, or after the last one.
  lemma NoneBetween(marks: seq<bool>, k: nat, t: nat, m: nat)
    requires var v := Picks(marks, k);
             t < |v| && v[t] < m < |marks| && (t + 1 < |v| ==> m < v[t + 1])
    ensures !marks[m]
  {
    hide Picks;
    if marks[m] {
      var s := Picked(marks, k, m);
    }
  }

  // The next one round a ring of n.
  function After(t: nat, n: nat): nat {
    if t + 1 < n then t + 1 else 0
  }

  // Going round from i, the first marked place is j.
  ghost predicate FirstMarked(marks: seq<bool>, i: nat, j: nat) {
    && j < |marks| && marks[j]
    && (i < j ==> forall m :: i < m < j ==> !marks[m])
    && (j <= i ==> (forall m :: i < m < |marks| ==> !marks[m]) && (forall m :: 0 <= m < j ==> !marks[m]))
  }

  lemma FirstMarkedIsNext(marks: seq<bool>, t: nat, j: nat)
    requires t < |Picks(marks, 0)| && FirstMarked(marks, Picks(marks, 0)[t], j)
    ensures j == Picks(marks, 0)[After(t, |Picks(marks, 0)|)]
  {
    hide Picks;
    var v := Picks(marks, 0);
    var s := Picked(marks, 0, j);
    if v[t] < j {
      assert t < s && v[t] < v[t + 1];
    } else {
      assert v[0] == j;
    }
  }

  // The elements of a multiset in some order.
  lemma {:induction false} ListOf<T>(m: multiset<T>) returns (s: seq<T>)
    ensures multiset(s) == m
    decreases |m|
  {
    if m == multiset{} {
      s := [];
    } else {
      var e :| e in m;
      s := ListOf(m - multiset{e});
      s := s + [e];
    }
  }
}
