// Small facts about sequences and sets shared by the rest of the model, and the one
// place where an unordered collection (a `HashSet`'s or `HashMap`'s iteration) is
// turned into a sequence.
module Collections {
  import opened Wrappers

  function Elems<T>(q: seq<T>): set<T> {
    set x | x in q
  }

  /** No element occurs twice: each is absent from the list before it. */
  predicate Distinct<T(==)>(s: seq<T>) {
    |s| == 0 || (Distinct(s[..|s| - 1]) && s[|s| - 1] !in s[..|s| - 1])
  }

  /** Appending keeps a list distinct exactly when the new element is not yet in it. */
  lemma DistinctSnoc<T>(s: seq<T>, x: T)
    ensures Distinct(s + [x]) <==> Distinct(s) && x !in s
  {
    assert (s + [x])[..|s|] == s;
  }

  /** Distinct positions hold distinct elements, and conversely. */
  lemma {:induction false} DistinctMeaning<T>(s: seq<T>)
    ensures Distinct(s) <==> forall i, j :: 0 <= i < j < |s| ==> s[i] != s[j]
  {
    if |s| > 0 {
      var init := s[..|s| - 1];
      DistinctMeaning(init);
      assert forall i :: 0 <= i < |init| ==> init[i] == s[i];
    }
  }

  /** A list without repeats has as many elements as the set of them. */
  lemma {:induction false} DistinctCard<T>(s: seq<T>)
    requires Distinct(s)
    ensures |Elems(s)| == |s|
  {
    if |s| > 0 {
      var init := s[..|s| - 1];
      DistinctCard(init);
      assert s == init + [s[|s| - 1]];
      assert Elems(s) == Elems(init) + {s[|s| - 1]};
    }
  }

  lemma ElemsAppend<T>(a: seq<T>, b: seq<T>)
    ensures Elems(a + b) == Elems(a) + Elems(b)
  {
  }

  /** A prefix one longer is the prefix with the next element appended. */
  lemma PrefixSnoc<T>(s: seq<T>, i: nat)
    requires i < |s|
    ensures s[..i + 1] == s[..i] + [s[i]]
  {
  }

  /** One more element of a list adds it to the set of those seen so far. */
  lemma ElemsPrefixStep<T>(s: seq<T>, j: nat)
    requires j < |s|
    ensures Elems(s[..j + 1]) == Elems(s[..j]) + {s[j]}
  {
    assert s[..j + 1] == s[..j] + [s[j]];
    ElemsAppend(s[..j], [s[j]]);
  }

  /** The values a partial function yields on a set of keys. */
  function Image<K, V>(f: K -> Option<V>, keys: set<K>): set<V> {
    set k | k in keys && f(k).Some? :: f(k).value
  }

  lemma InImage<K, V>(f: K -> Option<V>, keys: set<K>, k: K)
    requires k in keys && f(k).Some?
    ensures f(k).value in Image(f, keys)
  {
  }

  lemma FromImage<K, V>(f: K -> Option<V>, keys: set<K>, v: V) returns (k: K)
    requires v in Image(f, keys)
    ensures k in keys && f(k) == Some(v)
  {
    k :| k in keys && f(k).Some? && f(k).value == v;
  }

  /** One more key adds its value, if it has one. */
  lemma ImageAdd<K, V>(f: K -> Option<V>, keys: set<K>, k: K)
    ensures Image(f, keys + {k}) == Image(f, keys) + (if f(k).Some? then {f(k).value} else {})
  {
  }

  /** A loop collecting the values of `f` on `keys` in order: one more key appends its
      value, if it has one, and the list still holds exactly the image so far. */
  lemma ImageStep<K, V>(f: K -> Option<V>, keys: seq<K>, j: nat, out: seq<V>, v: Option<V>)
    requires j < |keys| && f(keys[j]) == v && Elems(out) == Image(f, Elems(keys[..j]))
    ensures v.Some? ==> Elems(out + [v.value]) == Image(f, Elems(keys[..j + 1]))
    ensures v.None? ==> Elems(out) == Image(f, Elems(keys[..j + 1]))
  {
    ElemsPrefixStep(keys, j);
    ImageAdd(f, Elems(keys[..j]), keys[j]);
    if v.Some? {
      ElemsAppend(out, [v.value]);
    }
  }

  /** One more element taken from the rest of the set keeps the list distinct and the
      split between the list and the rest exact. */
  lemma SetToSeqStep<T>(r: seq<T>, rest: set<T>, s: set<T>, x: T)
    requires Distinct(r) && Elems(r) !! rest && Elems(r) + rest == s && x in rest
    ensures Distinct(r + [x]) && Elems(r + [x]) !! rest - {x} && Elems(r + [x]) + (rest - {x}) == s
  {
    DistinctSnoc(r, x);
    ElemsAppend(r, [x]);
  }

  /** Collecting a set into a `Vec`: every element once, in an order the set's
      iteration chooses and Rust leaves unspecified. */
  method SetToSeq<T(==)>(s: set<T>) returns (r: seq<T>)
    ensures Distinct(r) && Elems(r) == s && |r| == |s|
  {
    r := [];
    var rest := s;
    while rest != {}
      invariant Distinct(r)
      invariant Elems(r) !! rest && Elems(r) + rest == s
      decreases |rest|
    {
      var x :| x in rest;
      SetToSeqStep(r, rest, s, x);
      r := r + [x];
      rest := rest - {x};
    }
    DistinctCard(r);
  }
}
