/** First-match search, the shape of every lookup loop in the source
    (`for (x : list) if (test(x)) return x; return null;`). */
module Search {
  import opened Base

  /** The index of the first element satisfying `test`, if any. */
  function FirstIndex<T>(s: seq<T>, test: T -> bool): (r: Option<nat>)
    ensures r.Some? ==> r.value < |s| && test(s[r.value])
    ensures r.Some? ==> forall j :: 0 <= j < r.value ==> !test(s[j])
    ensures r.None? <==> forall j :: 0 <= j < |s| ==> !test(s[j])
  {
    if s == [] then None
    else if test(s[0]) then Some(0)
    else match FirstIndex(s[1..], test)
      case None => None
      case Some(i) => Some(i + 1)
  }

  /** The first element satisfying `test`, if any. */
  function First<T>(s: seq<T>, test: T -> bool): (r: Option<T>)
    ensures r.Some? ==> test(r.value) && r.value in s
    ensures r.None? <==> forall j :: 0 <= j < |s| ==> !test(s[j])
    ensures r.Some? ==> exists i :: 0 <= i < |s| && s[i] == r.value && forall j :: 0 <= j < i ==> !test(s[j])
  {
    match FirstIndex(s, test)
    case None => None
    case Some(i) => Some(s[i])
  }

  /** `s` with every element satisfying `test` removed, the rest in order
      (Java's `removeIf`). */
  function RemoveAll<T>(s: seq<T>, test: T -> bool): (r: seq<T>)
    ensures |r| <= |s|
    ensures forall x :: x in r ==> x in s && !test(x)
    ensures forall x :: x in s && !test(x) ==> x in r
  {
    if s == [] then []
    else if test(s[0]) then RemoveAll(s[1..], test)
    else [s[0]] + RemoveAll(s[1..], test)
  }
  /** An element that passes `test` with none before it passing is the first match. */
  lemma {:induction false} FirstAt<T>(s: seq<T>, test: T -> bool, i: nat)
    requires i < |s| && test(s[i])
    requires forall j :: 0 <= j < i ==> !test(s[j])
    ensures FirstIndex(s, test) == Some(i)
    ensures First(s, test) == Some(s[i])
  {
    if i > 0 {
      FirstAt(s[1..], test, i - 1);
    }
  }

  /** `s` without its first occurrence of `x` (Java's `List.remove(Object)`). */
  function RemoveFirst<T(==)>(s: seq<T>, x: T): (r: seq<T>)
    ensures x !in s ==> r == s
    ensures x in s ==> |r| == |s| - 1 &&
                       exists i :: 0 <= i < |s| && s[i] == x && x !in s[..i] && r == s[..i] + s[i + 1..]
  {
    match FirstIndex(s, (y: T) => y == x)
    case None => s
    case Some(i) =>
      assert s[i] == x && x !in s[..i];
      s[..i] + s[i + 1..]
  }

  /** Removing with a test nothing satisfies leaves the sequence as it is. */
  lemma {:induction false} RemoveAllNone<T>(s: seq<T>, test: T -> bool)
    requires forall j :: 0 <= j < |s| ==> !test(s[j])
    ensures RemoveAll(s, test) == s
  {
    if s != [] {
      RemoveAllNone(s[1..], test);
    }
  }

  /** removeIf works element by element: the survivors of a concatenation are the
      survivors of each part, in order. */
  lemma {:induction false} RemoveAllAppend<T>(a: seq<T>, b: seq<T>, test: T -> bool)
    ensures RemoveAll(a + b, test) == RemoveAll(a, test) + RemoveAll(b, test)
  {
    if a == [] {
      assert a + b == b;
    } else {
      assert (a + b)[1..] == a[1..] + b;
      RemoveAllAppend(a[1..], b, test);
    }
  }

  /** A loop over a list whose body can throw: the bodies' results from position `k`
      on, in order, the first exception ending the loop. */
  function Collect<T>(rs: seq<Result<T>>, k: nat): (r: Result<seq<T>>)
    requires k <= |rs|
    decreases |rs| - k
  {
    if k == |rs| then Ok([])
    else if rs[k].Err? then Err(rs[k].error)
    else Prepend([rs[k].value], Collect(rs, k + 1))
  }

  /** The values gathered before a point, followed by what the rest of the loop gives. */
  function Prepend<T>(done: seq<T>, rest: Result<seq<T>>): (r: Result<seq<T>>)
    ensures r.Ok? <==> rest.Ok?
    ensures r.Ok? ==> |r.value| == |done| + |rest.value| && r.value[..|done|] == done && r.value[|done|..] == rest.value
    ensures r.Err? ==> r == rest
  {
    if rest.Ok? then Ok(done + rest.value) else rest
  }

  /** The loop ends normally exactly when no body throws, and then gives every body's
      value in order; otherwise it throws what the first throwing body threw. */
  lemma {:induction false} CollectMeans<T>(rs: seq<Result<T>>, k: nat)
    requires k <= |rs|
    ensures Collect(rs, k).Ok? <==> forall j :: k <= j < |rs| ==> rs[j].Ok?
    ensures Collect(rs, k).Ok? ==>
              |Collect(rs, k).value| == |rs| - k && forall j :: k <= j < |rs| ==> Collect(rs, k).value[j - k] == rs[j].value
    ensures Collect(rs, k).Err? ==>
              exists j :: k <= j < |rs| && rs[j] == Err(Collect(rs, k).error) && forall i :: k <= i < j ==> rs[i].Ok?
    decreases |rs| - k
  {
    if k < |rs| && rs[k].Ok? {
      CollectMeans(rs, k + 1);
      var r := Collect(rs, k);
      if r.Ok? {
        forall j | k <= j < |rs|
          ensures r.value[j - k] == rs[j].value
        {
          if j > k {
            assert r.value[j - k] == Collect(rs, k + 1).value[j - (k + 1)];
          }
        }
      }
    }
  }

  /** One step of the loop: a body that returns normally adds its value. */
  lemma PrependStep<T>(rs: seq<Result<T>>, done: seq<T>, i: nat)
    requires i < |rs| && rs[i].Ok?
    ensures Prepend(done, Collect(rs, i)) == Prepend(done + [rs[i].value], Collect(rs, i + 1))
  {
    var rest := Collect(rs, i + 1);
    if rest.Ok? {
      assert done + ([rs[i].value] + rest.value) == (done + [rs[i].value]) + rest.value;
    }
  }

  /** A loop whose bodies may raise a flag, run from position `k` with the flag as it
      stands: the flag it ends with, or what the first throwing body threw. */
  function RaiseFrom(rs: seq<Result<bool>>, k: nat, flag: bool): (r: Result<bool>)
    requires k <= |rs|
    ensures flag && r.Ok? ==> r.value
    decreases |rs| - k
  {
    if k == |rs| then Ok(flag)
    else if rs[k].Err? then Err(rs[k].error)
    else RaiseFrom(rs, k + 1, flag || rs[k].value)
  }

  /** Raising the flag along the loop is collecting the bodies' values and asking
      whether one of them is true. */
  lemma {:induction false} RaiseFromCollects(rs: seq<Result<bool>>, k: nat, flag: bool)
    requires k <= |rs|
    ensures var c := Collect(rs, k);
            RaiseFrom(rs, k, flag) == if c.Ok? then Ok(flag || true in c.value) else Err(c.error)
    decreases |rs| - k
  {
    if k < |rs| && rs[k].Ok? {
      RaiseFromCollects(rs, k + 1, flag || rs[k].value);
      var rest := Collect(rs, k + 1);
      if rest.Ok? {
        assert Collect(rs, k).value == [rs[k].value] + rest.value;
      }
    }
  }
}
