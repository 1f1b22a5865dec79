/** Values the sync script handles after JSON or YAML parsing: Ruby's nil,
    booleans, strings, floats, dates, arrays and string-keyed hashes, plus
    the Option/Result wrappers that stand for nil returns and raised
    exceptions. */
module Values {

  datatype Option<+T> = None | Some(value: T)

  datatype Result<+T, +E> = Success(value: T) | Failure(error: E)

  /** The exceptions the script can raise on the paths that are modelled. */
  datatype Error =
    | GitHubGraphQLAPIError(message: string)  // a failed or rejected GraphQL request
    | NoMethodError(receiver: string)         // a method called on nil; names the nil expression

  /** A parsed YAML/JSON value. `Day` is a `Date`, carried as the text it was
      parsed from; `Hash` keeps insertion order, as Ruby hashes do. */
  datatype Value =
    | Nil
    | Bool(b: bool)
    | Str(s: string)
    | Float(x: real)
    | Day(text: string)
    | List(items: seq<Value>)
    | Hash(entries: seq<(string, Value)>)

  /** A string-keyed Ruby Hash, in insertion order. */
  type Record = seq<(string, Value)>

  /** Ruby truthiness: everything except nil and false. */
  predicate Truthy(v: Value) {
    v != Nil && v != Bool(false)
  }

  /** The key/value content of a record; a later entry replaces an earlier one. */
  function ToMap(r: Record): map<string, Value> {
    if r == [] then map[] else ToMap(r[..|r| - 1])[r[|r| - 1].0 := r[|r| - 1].1]
  }

  /** `hash[key]`: nil when the key is absent. */
  function Get(r: Record, k: string): Value {
    if k in ToMap(r) then ToMap(r)[k] else Nil
  }

  /** Ruby's Hash#==: same keys with equal values, whatever the order. */
  predicate SameHash(a: Record, b: Record) {
    ToMap(a) == ToMap(b)
  }

  function KeysOf(r: Record): seq<string> {
    seq(|r|, i requires 0 <= i < |r| => r[i].0)
  }

  predicate UniqueKeys(r: Record) {
    forall i, j :: 0 <= i < j < |r| ==> r[i].0 != r[j].0
  }

  predicate HasNil(r: Record) {
    exists i :: 0 <= i < |r| && r[i].1 == Nil
  }

  /** Hash#compact: the entries whose value is not nil, in order. */
  function Compact(r: Record): (c: Record)
    ensures forall i :: 0 <= i < |c| ==> c[i].1 != Nil
    ensures forall i :: 0 <= i < |c| ==> c[i] in r
    ensures forall i :: 0 <= i < |r| && r[i].1 != Nil ==> r[i] in c
  {
    if r == [] then []
    else Compact(r[..|r| - 1]) + (if r[|r| - 1].1 == Nil then [] else [r[|r| - 1]])
  }

  /** Hash#compact!: removes the nil entries, and answers nil when there
      were none to remove. */
  function CompactBang(r: Record): (c: Option<Record>)
    ensures c.None? <==> !HasNil(r)
    ensures c.None? <==> Compact(r) == r
    ensures c.Some? ==> c.value == Compact(r) && |c.value| < |r|
  {
    CompactUnchanged(r);
    if HasNil(r) then Some(Compact(r)) else None
  }

  /** Hash#compact leaves a record unchanged exactly when it has no nil
      value, and otherwise makes it shorter. */
  lemma {:induction false} CompactUnchanged(r: Record)
    ensures |Compact(r)| <= |r|
    ensures Compact(r) == r <==> !HasNil(r)
    ensures HasNil(r) ==> |Compact(r)| < |r|
  {
    if r != [] {
      var pre := r[..|r| - 1];
      var last := r[|r| - 1];
      CompactUnchanged(pre);
      HasNilSnoc(pre, last);
      assert r == pre + [last];
      assert Compact(r) == Compact(pre) + (if last.1 == Nil then [] else [last]);
      if last.1 != Nil && Compact(r) == r {
        assert Compact(pre) == Compact(r)[..|r| - 1];
      }
    }
  }

  lemma HasNilSnoc(pre: Record, last: (string, Value))
    ensures HasNil(pre + [last]) <==> HasNil(pre) || last.1 == Nil
  {
    var r := pre + [last];
    if HasNil(r) && last.1 != Nil {
      var i :| 0 <= i < |r| && r[i].1 == Nil;
      assert pre[i] == r[i];
    }
    if HasNil(pre) {
      var i :| 0 <= i < |pre| && pre[i].1 == Nil;
      assert r[i] == pre[i];
    }
    if last.1 == Nil {
      assert r[|pre|] == last;
    }
  }

  /** Hash#merge: keys already present keep their position and take the new
      value; new keys are appended in the order of `b`. */
  function HashMerge(a: Record, b: Record): Record
    decreases |b|
  {
    if b == [] then a
    else
      var last := b[|b| - 1];
      Put(HashMerge(a, b[..|b| - 1]), last.0, last.1)
  }

  function Put(r: Record, k: string, v: Value): Record {
    if exists i :: 0 <= i < |r| && r[i].0 == k
    then seq(|r|, i requires 0 <= i < |r| => if r[i].0 == k then (k, v) else r[i])
    else r + [(k, v)]
  }

  lemma {:induction false} ToMapHasKey(r: Record, k: string)
    ensures k in ToMap(r) <==> k in KeysOf(r)
  {
    if r != [] {
      var pre := r[..|r| - 1];
      ToMapHasKey(pre, k);
      assert KeysOf(r) == KeysOf(pre) + [r[|r| - 1].0];
    }
  }

  /** In a record without repeated keys, `hash[key]` is the value stored with the key. */
  lemma {:induction false} GetEntry(r: Record, i: nat)
    requires UniqueKeys(r) && i < |r|
    ensures Get(r, r[i].0) == r[i].1
  {
    var pre := r[..|r| - 1];
    if i < |r| - 1 {
      assert pre[i] == r[i];
      GetEntry(pre, i);
      ToMapHasKey(pre, r[i].0);
    }
  }

  lemma GetAbsent(r: Record, k: string)
    requires k !in KeysOf(r)
    ensures Get(r, k) == Nil
  {
    ToMapHasKey(r, k);
  }

  lemma CompactKeys(r: Record, k: string)
    ensures k in KeysOf(Compact(r)) ==> k in KeysOf(r)
  {
    if k in KeysOf(Compact(r)) {
      var c := Compact(r);
      var i :| 0 <= i < |c| && KeysOf(c)[i] == k;
      assert c[i] in r;
      var j :| 0 <= j < |r| && r[j] == c[i];
      assert KeysOf(r)[j] == k;
    }
  }

  lemma {:induction false} CompactUniqueKeys(r: Record)
    requires UniqueKeys(r)
    ensures UniqueKeys(Compact(r))
  {
    if r != [] {
      var pre := r[..|r| - 1];
      CompactUniqueKeys(pre);
      var last := r[|r| - 1];
      if last.1 != Nil {
        var c := Compact(pre);
        forall i | 0 <= i < |c| ensures c[i].0 != last.0 {
          assert c[i] in pre;
        }
      }
    }
  }

  /** Hash#compact leaves every lookup unchanged: nil values and absent keys read alike. */
  lemma CompactKeepsLookups(r: Record, k: string)
    requires UniqueKeys(r)
    ensures Get(Compact(r), k) == Get(r, k)
  {
    var c := Compact(r);
    CompactUniqueKeys(r);
    if i :| 0 <= i < |c| && c[i].0 == k {
      GetEntry(c, i);
      var j :| 0 <= j < |r| && r[j] == c[i];
      GetEntry(r, j);
    } else {
      GetAbsent(c, k);
      if j :| 0 <= j < |r| && r[j].0 == k {
        GetEntry(r, j);
        assert r[j].1 == Nil;
      } else {
        GetAbsent(r, k);
      }
    }
  }

  /** Where a looked-up value comes from: an entry of the record. */
  lemma {:induction false} ToMapFrom(r: Record, k: string)
    requires k in ToMap(r)
    ensures exists i :: 0 <= i < |r| && r[i] == (k, ToMap(r)[k])
  {
    var pre := r[..|r| - 1];
    var last := r[|r| - 1];
    if last.0 != k {
      ToMapFrom(pre, k);
      var i :| 0 <= i < |pre| && pre[i] == (k, ToMap(pre)[k]);
      assert r[i] == pre[i];
    }
  }

  /** In a record without nil values, a key is present exactly when it reads non-nil. */
  lemma PresentIffNonNil(r: Record, k: string)
    requires forall i :: 0 <= i < |r| ==> r[i].1 != Nil
    ensures k in ToMap(r) <==> Get(r, k) != Nil
  {
    if k in ToMap(r) {
      ToMapFrom(r, k);
    }
  }

  /** Hash#compact keeps the relative order of the entries it keeps. */
  lemma {:induction false} CompactInOrder(r: Record, i: nat, j: nat)
    requires i < j < |Compact(r)|
    ensures exists a, b :: 0 <= a < b < |r| && r[a] == Compact(r)[i] && r[b] == Compact(r)[j]
  {
    var pre := r[..|r| - 1];
    var cp := Compact(pre);
    var c := Compact(r);
    assert c[..|cp|] == cp;
    if j < |cp| {
      CompactInOrder(pre, i, j);
      var a, b :| 0 <= a < b < |pre| && pre[a] == cp[i] && pre[b] == cp[j];
      assert r[a] == pre[a] && r[b] == pre[b];
    } else {
      assert c[i] == cp[i] && cp[i] in pre;
      var a :| 0 <= a < |pre| && pre[a] == cp[i];
      assert r[a] == pre[a];
      assert c[j] == r[|r| - 1];
    }
  }

  /** `hash[key] = value` for a key not yet present appends the entry. */
  lemma PutNew(r: Record, k: string, v: Value)
    requires k !in KeysOf(r)
    ensures Put(r, k, v) == r + [(k, v)]
  {
    assert forall i :: 0 <= i < |r| ==> KeysOf(r)[i] == r[i].0;
  }

  /** Replacing the value of every entry with key `k`. */
  function Replace(r: Record, k: string, v: Value): Record {
    seq(|r|, i requires 0 <= i < |r| => if r[i].0 == k then (k, v) else r[i])
  }

  lemma {:induction false} ToMapReplace(r: Record, k: string, v: Value)
    ensures ToMap(Replace(r, k, v)) == if k in ToMap(r) then ToMap(r)[k := v] else ToMap(r)
  {
    if r != [] {
      var pre := r[..|r| - 1];
      var last := r[|r| - 1];
      ToMapReplace(pre, k, v);
      assert Replace(r, k, v)[..|r| - 1] == Replace(pre, k, v);
      if last.0 != k {
        var m := ToMap(pre);
        if k in m {
          assert m[k := v][last.0 := last.1] == m[last.0 := last.1][k := v];
        }
      }
    }
  }

  /** After `hash[k] = v`, the key reads `v` and every other key reads as before. */
  lemma ToMapPut(r: Record, k: string, v: Value)
    ensures ToMap(Put(r, k, v)) == ToMap(r)[k := v]
  {
    if exists i :: 0 <= i < |r| && r[i].0 == k {
      var i :| 0 <= i < |r| && r[i].0 == k;
      assert KeysOf(r)[i] == k;
      ToMapHasKey(r, k);
      ToMapReplace(r, k, v);
      assert Put(r, k, v) == Replace(r, k, v);
    }
  }

  /** Hash#merge: a key of `b` reads as in `b`, any other key as in `a`. */
  lemma {:induction false} GetHashMerge(a: Record, b: Record, k: string)
    ensures Get(HashMerge(a, b), k) == if k in ToMap(b) then ToMap(b)[k] else Get(a, k)
    ensures k in ToMap(HashMerge(a, b)) <==> k in ToMap(a) || k in ToMap(b)
  {
    if b != [] {
      var last := b[|b| - 1];
      GetHashMerge(a, b[..|b| - 1], k);
      ToMapPut(HashMerge(a, b[..|b| - 1]), last.0, last.1);
    }
  }
}
