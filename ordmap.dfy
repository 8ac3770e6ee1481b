// std::map<std::string, V> as the sorted association list it iterates as:
// keys ascending in std::string order (lexicographic on unsigned char values),
// each key at most once.

module OrdMap {
  import opened Bytes

  /** std::string's operator<: the first differing char decides, a proper prefix is smaller. */
  predicate Less(a: string, b: string)
    decreases |a|
  {
    if a == [] then b != []
    else if b == [] then false
    else if a[0] != b[0] then a[0] < b[0]
    else Less(a[1..], b[1..])
  }

  lemma {:induction false} LessIrreflexive(a: string)
    ensures !Less(a, a)
    decreases |a|
  {
    if a != [] {
      LessIrreflexive(a[1..]);
    }
  }

  lemma {:induction false} LessTrans(a: string, b: string, c: string)
    requires Less(a, b) && Less(b, c)
    ensures Less(a, c)
    decreases |a|
  {
    if a != [] && b != [] && c != [] && a[0] == b[0] && b[0] == c[0] {
      LessTrans(a[1..], b[1..], c[1..]);
    }
  }

  /** Exactly one of a < b, a == b, b < a. */
  lemma {:induction false} LessTotal(a: string, b: string)
    ensures a == b || Less(a, b) || Less(b, a)
    ensures !(Less(a, b) && Less(b, a))
    decreases |a|
  {
    if a != [] && b != [] && a[0] == b[0] {
      LessTotal(a[1..], b[1..]);
      if a[1..] == b[1..] {
        assert a == [a[0]] + a[1..] && b == [b[0]] + b[1..];
      }
    }
  }

  type Entries<V> = seq<(string, V)>

  function Keys<V>(m: Entries<V>): (r: set<string>)
    ensures forall k :: k in r <==> exists i :: 0 <= i < |m| && m[i].0 == k
  {
    if m == [] then {} else {m[0].0} + Keys(m[1..])
  }

  /** map::find. */
  function Get<V>(m: Entries<V>, k: string): (r: Option<V>)
    ensures r.None? <==> k !in Keys(m)
  {
    if m == [] then None else if m[0].0 == k then Some(m[0].1) else Get(m[1..], k)
  }

  /** map::operator[] = v: set the value of k, adding k in order when absent. */
  function Put<V>(m: Entries<V>, k: string, v: V): (r: Entries<V>)
  {
    if m == [] then [(k, v)]
    else if m[0].0 == k then [(k, v)] + m[1..]
    else if Less(k, m[0].0) then [(k, v)] + m
    else [m[0]] + Put(m[1..], k, v)
  }

  /** map::insert / emplace: add k in order, leaving an existing value alone. */
  function Insert<V>(m: Entries<V>, k: string, v: V): (r: Entries<V>)
  {
    if k in Keys(m) then m else Put(m, k, v)
  }

  /** Keys strictly ascending: the first key is below every later one. */
  predicate Sorted<V>(m: Entries<V>)
  {
    m == [] || ((forall j :: j in Keys(m[1..]) ==> Less(m[0].0, j)) && Sorted(m[1..]))
  }

  lemma {:induction false} PutKeys<V>(m: Entries<V>, k: string, v: V)
    ensures Keys(Put(m, k, v)) == Keys(m) + {k}
  {
    if m != [] && m[0].0 != k && !Less(k, m[0].0) {
      PutKeys(m[1..], k, v);
    }
  }

  /** Put leaves every other key's value alone and makes k's value v. */
  lemma {:induction false} PutGet<V>(m: Entries<V>, k: string, v: V, j: string)
    ensures Get(Put(m, k, v), j) == if j == k then Some(v) else Get(m, j)
  {
    if m != [] && m[0].0 != k && !Less(k, m[0].0) {
      PutGet(m[1..], k, v, j);
    }
  }

  /** Put keeps the list sorted. */
  lemma {:induction false} PutSorted<V>(m: Entries<V>, k: string, v: V)
    requires Sorted(m)
    ensures Sorted(Put(m, k, v))
  {
    if m == [] {
      assert Put(m, k, v)[1..] == [];
    } else if m[0].0 == k {
      assert Put(m, k, v)[1..] == m[1..];
    } else if Less(k, m[0].0) {
      var r := Put(m, k, v);
      assert r[1..] == m;
      forall j | j in Keys(m) ensures Less(k, j) {
        if j != m[0].0 {
          LessTrans(k, m[0].0, j);
        }
      }
    } else {
      LessTotal(k, m[0].0);
      PutSorted(m[1..], k, v);
      PutKeys(m[1..], k, v);
      assert Put(m, k, v)[1..] == Put(m[1..], k, v);
    }
  }

  /** map::insert(first, last): insert every pair of `o` in order, each one
    * leaving an existing key alone. */
  function InsertAll<V>(m: Entries<V>, o: Entries<V>): (r: Entries<V>)
    decreases |o|
  {
    if o == [] then m else InsertAll(Insert(m, o[0].0, o[0].1), o[1..])
  }

  /** Insert leaves a present key's value alone and adds an absent one. */
  lemma InsertGet<V>(m: Entries<V>, k: string, v: V, j: string)
    ensures Get(Insert(m, k, v), j) == if j == k && Get(m, k).None? then Some(v) else Get(m, j)
  {
    if k !in Keys(m) {
      PutGet(m, k, v, j);
    }
  }

  /** After inserting a range, a key keeps the value it had; a new key takes
    * the value of its first occurrence in the range. */
  lemma {:induction false} InsertAllGet<V>(m: Entries<V>, o: Entries<V>, j: string)
    ensures Get(InsertAll(m, o), j) == if Get(m, j).Some? then Get(m, j) else Get(o, j)
    decreases |o|
  {
    if o != [] {
      var m' := Insert(m, o[0].0, o[0].1);
      InsertAllGet(m', o[1..], j);
      InsertGet(m, o[0].0, o[0].1, j);
    }
  }

  /** Every pair of the map satisfies p. */
  predicate All<V>(m: Entries<V>, p: (string, V) -> bool)
  {
    forall i :: 0 <= i < |m| ==> p(m[i].0, m[i].1)
  }

  lemma {:induction false} PutAll<V>(m: Entries<V>, k: string, v: V, p: (string, V) -> bool)
    requires All(m, p) && p(k, v)
    ensures All(Put(m, k, v), p)
  {
    if m != [] && m[0].0 != k && !Less(k, m[0].0) {
      PutAll(m[1..], k, v, p);
      assert Put(m, k, v) == [m[0]] + Put(m[1..], k, v);
    }
  }

  lemma {:induction false} InsertAllAll<V>(m: Entries<V>, o: Entries<V>, p: (string, V) -> bool)
    requires All(m, p) && All(o, p)
    ensures All(InsertAll(m, o), p)
    decreases |o|
  {
    if o != [] {
      if o[0].0 !in Keys(m) {
        PutAll(m, o[0].0, o[0].1, p);
      }
      InsertAllAll(Insert(m, o[0].0, o[0].1), o[1..], p);
    }
  }
}
