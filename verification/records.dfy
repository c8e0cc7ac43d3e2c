/** A JavaScript plain object as an ordered association list: its own enumerable
    string keys in insertion order, each with its value. Only the operations the
    renderer uses are modelled: key and value enumeration (`_.keys`, `_.values`),
    lookup, property assignment, `Object.assign`, `_.pick` and `_.object`. */
module Records {
  import opened Dedup

  datatype Option<T> = None | Some(value: T)

  /** A property: key and value. */
  type Entry = (string, string)

  /** An object as the list of its properties in enumeration order. */
  type Record = seq<Entry>

  /** `_.keys(r)`. */
  function Keys(r: Record): (ks: seq<string>)
    ensures |ks| == |r|
  {
    seq(|r|, i requires 0 <= i < |r| => r[i].0)
  }

  /** `_.values(r)`. */
  function Values(r: Record): (vs: seq<string>)
    ensures |vs| == |r|
  {
    seq(|r|, i requires 0 <= i < |r| => r[i].1)
  }

  /** A genuine object never repeats a key. */
  predicate DistinctKeys(r: Record)
  {
    Distinct(Keys(r))
  }

  /** An object built by a program: keys are unique. */
  type Row = r: Record | DistinctKeys(r) witness []

  /** `r[k]`, `None` standing for a missing property. */
  function Lookup(r: Record, k: string): (v: Option<string>)
    ensures v.Some? <==> k in Keys(r)
    ensures v.Some? ==> (k, v.value) in r
  {
    if |r| == 0 then None
    else
      assert Keys(r) == [r[0].0] + Keys(r[1..]);
      if r[0].0 == k then Some(r[0].1)
      else Lookup(r[1..], k)
  }

  /** Dropping the first property drops the first key and keeps keys unique. */
  lemma KeysTail(r: Record)
    requires |r| > 0
    ensures Keys(r) == [r[0].0] + Keys(r[1..])
    ensures DistinctKeys(r) ==> DistinctKeys(r[1..]) && r[0].0 !in Keys(r[1..])
  {
    assert Keys(r[1..]) == Keys(r)[1..];
    assert Keys(r) == [r[0].0] + Keys(r[1..]);
    if DistinctKeys(r) {
      DistinctTail(Keys(r));
    }
  }

  /** In an object with unique keys, looking up the key of a property yields its value. */
  lemma {:induction false} LookupAt(r: Record, i: nat)
    requires DistinctKeys(r) && i < |r|
    ensures Lookup(r, r[i].0) == Some(r[i].1)
    decreases i
  {
    if i > 0 {
      KeysTail(r);
      assert Keys(r)[0] != Keys(r)[i];
      LookupAt(r[1..], i - 1);
    }
  }

  lemma LookupEach(r: Row)
    ensures forall i :: 0 <= i < |r| ==> Lookup(r, r[i].0) == Some(r[i].1)
  {
    forall i | 0 <= i < |r|
      ensures Lookup(r, r[i].0) == Some(r[i].1)
    {
      LookupAt(r, i);
    }
  }

  /** Prepending a property prepends its key and shadows every later property with that key. */
  lemma Cons(e: Entry, r: Record)
    ensures Keys([e] + r) == [e.0] + Keys(r)
    ensures forall k :: Lookup([e] + r, k) == if k == e.0 then Some(e.1) else Lookup(r, k)
  {
    assert ([e] + r)[1..] == r;
    assert Keys([e] + r) == [e.0] + Keys(r);
  }

  /** `r[k] = v`: an existing property is overwritten in place, a new one goes last. */
  function Put(r: Record, k: string, v: string): Record
  {
    if |r| == 0 then [(k, v)]
    else if r[0].0 == k then [(k, v)] + r[1..]
    else [r[0]] + Put(r[1..], k, v)
  }

  /** After `r[k] = v`, reading `k` gives `v` and every other key reads as before. */
  lemma {:induction false} PutLookup(r: Record, k: string, v: string, k': string)
    ensures Lookup(Put(r, k, v), k') == if k' == k then Some(v) else Lookup(r, k')
    decreases |r|
  {
    if |r| == 0 {
      Cons((k, v), []);
      assert [(k, v)] == [(k, v)] + [];
    } else {
      Cons(r[0], r[1..]);
      assert r == [r[0]] + r[1..];
      if r[0].0 == k {
        Cons((k, v), r[1..]);
      } else {
        PutLookup(r[1..], k, v, k');
        Cons(r[0], Put(r[1..], k, v));
      }
    }
  }

  /** `r[k] = v` keeps the key order, adding `k` at the end when it is new. */
  lemma {:induction false} PutKeys(r: Record, k: string, v: string)
    ensures Keys(Put(r, k, v)) == if k in Keys(r) then Keys(r) else Keys(r) + [k]
    decreases |r|
  {
    if |r| == 0 {
      assert Keys([(k, v)]) == [k];
    } else {
      Cons(r[0], r[1..]);
      assert r == [r[0]] + r[1..];
      if r[0].0 == k {
        Cons((k, v), r[1..]);
      } else {
        PutKeys(r[1..], k, v);
        Cons(r[0], Put(r[1..], k, v));
      }
    }
  }

  /** `Object.assign(target, source)`: the properties of `source` are assigned to
      `target` one by one, in `source`'s order. */
  function Assign(target: Record, source: Record): Record
    decreases |source|
  {
    if |source| == 0 then target
    else Assign(Put(target, source[0].0, source[0].1), source[1..])
  }

  /** Assigning only keys the target already has keeps the target's key order. */
  lemma {:induction false} AssignKeepsKeys(target: Record, source: Record)
    requires forall i :: 0 <= i < |source| ==> source[i].0 in Keys(target)
    ensures Keys(Assign(target, source)) == Keys(target)
    decreases |source|
  {
    if |source| > 0 {
      PutKeys(target, source[0].0, source[0].1);
      AssignKeepsKeys(Put(target, source[0].0, source[0].1), source[1..]);
    }
  }

  /** Assigning a key the target lacks appends the property. */
  lemma PutNew(r: Record, k: string, v: string)
    requires k !in Keys(r)
    ensures Put(r, k, v) == r + [(k, v)]
  {
    if |r| > 0 {
      KeysTail(r);
      PutNew(r[1..], k, v);
      assert [r[0]] + (r[1..] + [(k, v)]) == r + [(k, v)];
    }
  }

  /** Assigning properties whose keys are all new appends them in order; in particular
      `Object.assign({}, d)` copies `d` exactly. */
  lemma {:induction false} AssignFresh(target: Record, source: Record)
    requires DistinctKeys(source)
    requires forall i :: 0 <= i < |source| ==> source[i].0 !in Keys(target)
    ensures Assign(target, source) == target + source
    decreases |source|
  {
    if |source| > 0 {
      var head, tail := source[0], source[1..];
      KeysTail(source);
      PutNew(target, head.0, head.1);
      var next := target + [head];
      assert Keys(next) == Keys(target) + [head.0];
      forall i | 0 <= i < |tail|
        ensures tail[i].0 !in Keys(next)
      {
        assert tail[i] == source[i + 1];
        assert Keys(source)[i + 1] == tail[i].0;
      }
      AssignFresh(next, tail);
      assert next + tail == target + source;
    }
  }

  /** After `Object.assign`, a key of `source` reads `source`'s value; any other key reads
      the target's value (or stays missing). */
  lemma {:induction false} AssignLookup(target: Record, source: Record, k: string)
    requires DistinctKeys(source)
    ensures Lookup(Assign(target, source), k) ==
              if k in Keys(source) then Lookup(source, k) else Lookup(target, k)
    decreases |source|
  {
    if |source| > 0 {
      var head, tail := source[0], source[1..];
      KeysTail(source);
      PutLookup(target, head.0, head.1, k);
      AssignLookup(Put(target, head.0, head.1), tail, k);
    }
  }

  /** `_.pick(r, ...keys)`: the properties of `r` whose key is listed, in the order of `keys`. */
  function Pick(r: Record, keys: seq<string>): Record
  {
    if |keys| == 0 then []
    else
      match Lookup(r, keys[0])
      case Some(v) => [(keys[0], v)] + Pick(r, keys[1..])
      case None => Pick(r, keys[1..])
  }

  /** A picked object reads like `r` on the listed keys and lacks every other key. */
  lemma {:induction false} PickLookup(r: Record, keys: seq<string>, k: string)
    ensures Lookup(Pick(r, keys), k) == if k in keys then Lookup(r, k) else None
    decreases |keys|
  {
    if |keys| > 0 {
      PickLookup(r, keys[1..], k);
      assert keys == [keys[0]] + keys[1..];
      match Lookup(r, keys[0])
      case Some(v) => Cons((keys[0], v), Pick(r, keys[1..]));
      case None =>
    }
  }

  /** A picked object has only listed keys, and unique keys when the list has no repeats. */
  lemma {:induction false} PickKeys(r: Record, keys: seq<string>)
    ensures forall i :: 0 <= i < |Pick(r, keys)| ==> Pick(r, keys)[i].0 in keys
    ensures Distinct(keys) ==> DistinctKeys(Pick(r, keys))
    decreases |keys|
  {
    if |keys| > 0 {
      var rest := Pick(r, keys[1..]);
      PickKeys(r, keys[1..]);
      assert keys == [keys[0]] + keys[1..];
      if Distinct(keys) {
        DistinctTail(keys);
      }
      match Lookup(r, keys[0])
      case Some(v) =>
        Cons((keys[0], v), rest);
        var p := [(keys[0], v)] + rest;
        assert forall i :: 1 <= i < |p| ==> p[i] == rest[i - 1];
        if Distinct(keys) {
          DistinctCons(keys[0], Keys(rest));
        }
      case None =>
    }
  }

  /** `_.object(keys, values)` with every value the empty string. */
  function Blank(keys: seq<string>): (d: Record)
    ensures Keys(d) == keys
    ensures forall k :: Lookup(d, k) == if k in keys then Some("") else None
  {
    seq(|keys|, i requires 0 <= i < |keys| => (keys[i], ""))
  }
}
