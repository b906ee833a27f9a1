/** A JavaScript `Map<string, T>`: entries in insertion order, one per key.
    `set` on a present key replaces the value where it stands; `set` on a new
    key appends; `delete` removes the entry; `values()` walks insertion order. */
module Tables {
  import opened Base

  datatype Entry<T> = Entry(key: string, value: T)

  type Table<T> = seq<Entry<T>>

  ghost predicate KeysUnique<T>(t: Table<T>) {
    forall i, j :: 0 <= i < j < |t| ==> t[i].key != t[j].key
  }

  /** The keys present in the table. */
  ghost function Keys<T>(t: Table<T>): set<string> {
    set i | 0 <= i < |t| :: t[i].key
  }

  /** The keys of a non-empty table: its first key and the keys of the rest. */
  lemma KeysFront<T>(t: Table<T>)
    requires t != []
    ensures Keys(t) == {t[0].key} + Keys(t[1..])
  {
    forall x | x in Keys(t) ensures x in {t[0].key} + Keys(t[1..]) {
      var i :| 0 <= i < |t| && t[i].key == x;
      if i > 0 { assert t[1..][i - 1].key == x; }
    }
    forall x | x in Keys(t[1..]) ensures x in Keys(t) {
      var i :| 0 <= i < |t[1..]| && t[1..][i].key == x;
      assert t[i + 1].key == x;
    }
  }

  /** `Array.from(map.values())`. */
  function Values<T>(t: Table<T>): (vs: seq<T>)
    ensures |vs| == |t|
    ensures forall i :: 0 <= i < |t| ==> vs[i] == t[i].value
  {
    if t == [] then [] else [t[0].value] + Values(t[1..])
  }

  /** `map.get(k)`. */
  function Get<T>(t: Table<T>, k: string): (r: Option<T>)
    ensures r.None? <==> k !in Keys(t)
    ensures r.Some? ==> exists i :: 0 <= i < |t| && t[i] == Entry(k, r.value)
  {
    if t == [] then None
    else if t[0].key == k then Some(t[0].value)
    else Get(t[1..], k)
  }

  /** `map.set(k, v)`. */
  function Put<T>(t: Table<T>, k: string, v: T): (r: Table<T>)
    ensures Keys(r) == Keys(t) + {k}
    ensures |r| == if k in Keys(t) then |t| else |t| + 1
  {
    if t == [] then
      KeysFront([Entry(k, v)]);
      [Entry(k, v)]
    else if t[0].key == k then
      KeysFront(t);
      KeysFront([Entry(k, v)] + t[1..]);
      [Entry(k, v)] + t[1..]
    else
      var rest := Put(t[1..], k, v);
      KeysFront(t);
      KeysFront([t[0]] + rest);
      assert ([t[0]] + rest)[1..] == rest;
      [t[0]] + rest
  }

  /** `map.delete(k)`. */
  function Delete<T>(t: Table<T>, k: string): (r: Table<T>)
    ensures forall i :: 0 <= i < |r| ==> r[i] in t && r[i].key != k
    ensures forall i :: 0 <= i < |t| && t[i].key != k ==> t[i] in r
    ensures Keys(r) == Keys(t) - {k}
    ensures |r| <= |t|
    ensures k in Keys(t) ==> |r| < |t|
  {
    if t == [] then []
    else if t[0].key == k then Delete(t[1..], k)
    else [t[0]] + Delete(t[1..], k)
  }

  /** Lookup in a table whose keys are unique finds the one entry with that key. */
  lemma GetAt<T>(t: Table<T>, i: nat)
    requires KeysUnique(t) && i < |t|
    ensures Get(t, t[i].key) == Some(t[i].value)
  {
    var k := t[i].key;
    var r := Get(t, k);
    var j :| 0 <= j < |t| && t[j] == Entry(k, r.value);
  }

  /** Setting a new key appends exactly one entry at the end. */
  lemma {:induction false} PutFresh<T>(t: Table<T>, k: string, v: T)
    requires k !in Keys(t)
    ensures Put(t, k, v) == t + [Entry(k, v)]
  {
    if t != [] {
      assert t[0].key != k;
      assert k !in Keys(t[1..]) by {
        assert forall i :: 0 <= i < |t[1..]| ==> t[1..][i] == t[i + 1];
      }
      PutFresh(t[1..], k, v);
      assert t == [t[0]] + t[1..];
    }
  }

  /** Setting a present key replaces its value in place and leaves every other
      entry where it was. */
  lemma {:induction false} PutPresent<T>(t: Table<T>, i: nat, v: T)
    requires KeysUnique(t) && i < |t|
    ensures Put(t, t[i].key, v) == t[i := Entry(t[i].key, v)]
  {
    if i > 0 {
      assert t[0].key != t[i].key;
      assert t[1..][i - 1] == t[i];
      PutPresent(t[1..], i - 1, v);
      assert t[i := Entry(t[i].key, v)] == [t[0]] + t[1..][i - 1 := Entry(t[i].key, v)];
    }
  }

  /** `set` keeps the keys unique. */
  lemma PutKeepsUnique<T>(t: Table<T>, k: string, v: T)
    requires KeysUnique(t)
    ensures KeysUnique(Put(t, k, v))
  {
    if k in Keys(t) {
      var i :| 0 <= i < |t| && t[i].key == k;
      PutPresent(t, i, v);
    } else {
      PutFresh(t, k, v);
    }
  }

  /** After `set(k, v)`, `get(k)` is `v` and every other key reads as before. */
  lemma {:induction false} PutThenGet<T>(t: Table<T>, k: string, v: T, k': string)
    ensures Get(Put(t, k, v), k) == Some(v)
    ensures k' != k ==> Get(Put(t, k, v), k') == Get(t, k')
  {
    if t != [] && t[0].key != k {
      PutThenGet(t[1..], k, v, k');
    }
  }

  /** With unique keys, deleting the key of entry `i` removes exactly that
      entry and leaves the others in order. */
  lemma {:induction false} DeleteAt<T>(t: Table<T>, i: nat)
    requires KeysUnique(t) && i < |t|
    ensures Delete(t, t[i].key) == t[..i] + t[i + 1..]
  {
    if i == 0 {
      DeleteAbsent(t[1..], t[0].key);
    } else {
      var k := t[i].key;
      var u := t[1..];
      assert t[0].key != k;
      assert u[i - 1] == t[i];
      DeleteAt(u, i - 1);
      calc {
        Delete(t, k);
        [t[0]] + Delete(u, k);
        [t[0]] + (u[..i - 1] + u[i..]);
        { assert [t[0]] + u[..i - 1] == t[..i]; assert u[i..] == t[i + 1..]; }
        t[..i] + t[i + 1..];
      }
    }
  }

  /** Deleting an absent key changes nothing. */
  lemma {:induction false} DeleteAbsent<T>(t: Table<T>, k: string)
    requires forall j :: 0 <= j < |t| ==> t[j].key != k
    ensures Delete(t, k) == t
  {
    if t != [] {
      DeleteAbsent(t[1..], k);
    }
  }

  /** The values of two tables laid end to end. */
  lemma ValuesAppend<T>(a: Table<T>, b: Table<T>)
    ensures Values(a + b) == Values(a) + Values(b)
  {
  }
}
