/**
 * PHP's ordered arrays and the library functions the request layer applies
 * to them: lookup, `isset`, assignment `$a[k] = v`, `unset`, appending with
 * `$a[] = v`, `array_merge` and `array_merge_recursive`.
 *
 * A PHP array is an ordered list of entries. Keys are either strings or
 * integers; PHP has already turned numeric strings such as "7" into integer
 * keys before a value reaches this layer, so `Key` holds normalised keys.
 * A real PHP array never holds the same key twice (`ValidArray`).
 */
module PhpArrays {
  import opened Wrappers

  datatype Key = StrKey(name: string) | IntKey(index: int)

  /** The PHP values a request's parameters are built from (floats and objects are not modelled). */
  datatype Value =
    | Null
    | Bool(b: bool)
    | Int(i: int)
    | Str(s: string)
    | Arr(entries: seq<Entry>)

  datatype Entry = Entry(key: Key, value: Value)

  predicate UniqueKeys(es: seq<Entry>)
  {
    forall i, j :: 0 <= i < j < |es| ==> es[i].key != es[j].key
  }

  /** Every array inside `v`, at any depth, has distinct keys. */
  predicate WellFormed(v: Value)
    decreases v
  {
    match v
    case Arr(es) => UniqueKeys(es) && forall i :: 0 <= i < |es| ==> WellFormed(es[i].value)
    case _ => true
  }

  predicate ValidArray(es: seq<Entry>)
  {
    WellFormed(Arr(es))
  }

  // ---------------------------------------------------------------------------
  // Lookup
  // ---------------------------------------------------------------------------

  /** Position of the entry with key `k`, or `|es|` when there is none. */
  function Find(es: seq<Entry>, k: Key): (r: nat)
    ensures r <= |es|
    ensures r < |es| ==> es[r].key == k
    ensures forall i :: 0 <= i < r ==> es[i].key != k
  {
    if es == [] then 0
    else if es[0].key == k then 0
    else 1 + Find(es[1..], k)
  }

  predicate HasKey(es: seq<Entry>, k: Key)
  {
    Find(es, k) < |es|
  }

  /** `$a[k]` when `array_key_exists(k, $a)`, otherwise `None`. */
  function Get(es: seq<Entry>, k: Key): Option<Value>
  {
    var i := Find(es, k);
    if i < |es| then Some(es[i].value) else None
  }

  /** PHP's `isset($a[k])`: the key exists and its value is not null. */
  predicate IsSet(es: seq<Entry>, k: Key): (r: bool)
    ensures r <==> Find(es, k) < |es| && es[Find(es, k)].value != Null
  {
    Get(es, k).Some? && Get(es, k).value != Null
  }

  /** The values under integer keys, in array order. */
  function IntValues(es: seq<Entry>): seq<Value>
  {
    if es == [] then []
    else (if es[0].key.IntKey? then [es[0].value] else []) + IntValues(es[1..])
  }

  /** The integer keys, in array order. */
  function IntKeys(es: seq<Entry>): seq<int>
  {
    if es == [] then []
    else (if es[0].key.IntKey? then [es[0].key.index] else []) + IntKeys(es[1..])
  }

  /** The integer keys count 0, 1, 2, ... in array order, as after `array_merge`. */
  predicate Renumbered(es: seq<Entry>)
  {
    forall j :: 0 <= j < |IntKeys(es)| ==> IntKeys(es)[j] == j
  }

  // ---------------------------------------------------------------------------
  // Assignment, unset and append
  // ---------------------------------------------------------------------------

  /** `$a[k] = v`: an existing key keeps its position, a new key goes last. */
  function Set(es: seq<Entry>, k: Key, v: Value): (r: seq<Entry>)
    ensures |r| == if HasKey(es, k) then |es| else |es| + 1
    ensures forall i :: 0 <= i < |es| ==> r[i].key == es[i].key
    ensures r[if HasKey(es, k) then Find(es, k) else |es|] == Entry(k, v)
  {
    var i := Find(es, k);
    if i < |es| then es[i := Entry(k, v)] else es + [Entry(k, v)]
  }

  /** `unset($a[k])`: the entry with key `k` is removed, the others keep their order. */
  function Unset(es: seq<Entry>, k: Key): (r: seq<Entry>)
    ensures |r| <= |es|
    ensures forall e :: e in r ==> e in es && e.key != k
  {
    if es == [] then []
    else if es[0].key == k then Unset(es[1..], k)
    else [es[0]] + Unset(es[1..], k)
  }

  /**
   * The key `$a[] = v` uses: one more than the largest integer key, and 0
   * when there is none or all are negative (PHP before 8.3).
   */
  function NextIndex(es: seq<Entry>): (n: int)
    ensures n >= 0
    ensures forall i :: 0 <= i < |es| && es[i].key.IntKey? ==> es[i].key.index < n
  {
    if es == [] then 0
    else
      var n := NextIndex(es[1..]);
      if es[0].key.IntKey? && es[0].key.index + 1 > n then es[0].key.index + 1 else n
  }

  /** `$a[] = v`. */
  function Push(es: seq<Entry>, v: Value): (r: seq<Entry>)
    ensures |r| == |es| + 1 && r[..|es|] == es && r[|es|].value == v && r[|es|].key.IntKey?
    ensures forall i :: 0 <= i < |es| ==> es[i].key != r[|es|].key
  {
    es + [Entry(IntKey(NextIndex(es)), v)]
  }

  // ---------------------------------------------------------------------------
  // What lookup sees after each update
  // ---------------------------------------------------------------------------

  /** The first position holding `k` is the one `Find` returns. */
  lemma FindIsFirst(es: seq<Entry>, k: Key, r: nat)
    requires r <= |es|
    requires r < |es| ==> es[r].key == k
    requires forall i :: 0 <= i < r ==> es[i].key != k
    ensures Find(es, k) == r
  {
  }

  lemma GetCons(e: Entry, t: seq<Entry>, k: Key)
    ensures Get([e] + t, k) == if e.key == k then Some(e.value) else Get(t, k)
  {
    assert ([e] + t)[1..] == t;
  }

  /** A value found in a valid array is well formed. */
  lemma GetWellFormed(es: seq<Entry>, k: Key)
    requires ValidArray(es) && HasKey(es, k)
    ensures WellFormed(Get(es, k).value)
  {
  }

  /** Assignment stores `v` under `k` and leaves every other key's value alone. */
  lemma SetGet(es: seq<Entry>, k: Key, v: Value)
    ensures Get(Set(es, k, v), k) == Some(v)
    ensures forall k' :: k' != k ==> Get(Set(es, k, v), k') == Get(es, k')
  {
    var i := Find(es, k);
    var r := Set(es, k, v);
    FindIsFirst(r, k, i);
    forall k' | k' != k
      ensures Get(r, k') == Get(es, k')
    {
      var j := Find(es, k');
      if j < |es| {
        FindIsFirst(r, k', j);
      } else {
        FindIsFirst(r, k', |r|);
      }
    }
  }

  /**
   * `isset` by membership: in an array with distinct keys, `isset($a[k])`
   * holds exactly when some entry has key `k` and a non-null value.
   */
  lemma IsSetMember(es: seq<Entry>, k: Key)
    requires UniqueKeys(es)
    ensures IsSet(es, k) <==> exists i :: 0 <= i < |es| && es[i].key == k && es[i].value != Null
  {
  }

  /** After `$a[k] = v`, `isset($a[k])` holds exactly when `v` is not null. */
  lemma IsSetAfterSet(es: seq<Entry>, k: Key, v: Value)
    ensures IsSet(Set(es, k, v), k) <==> v != Null
  {
    SetGet(es, k, v);
  }

  /** Assigning under a string key leaves the integer-keyed values as they were. */
  lemma SetIntValues(es: seq<Entry>, name: string, v: Value)
    ensures IntValues(Set(es, StrKey(name), v)) == IntValues(es)
    ensures IntKeys(Set(es, StrKey(name), v)) == IntKeys(es)
  {
    var i := Find(es, StrKey(name));
    if i < |es| {
      IntValuesUpdateStr(es, i, v);
    } else {
      IntValuesAppend(es, [Entry(StrKey(name), v)]);
    }
  }

  /** Appending adds `v` as the last integer-keyed value and changes no existing key. */
  lemma PushIntValues(es: seq<Entry>, v: Value)
    ensures IntValues(Push(es, v)) == IntValues(es) + [v]
    ensures IntKeys(Push(es, v)) == IntKeys(es) + [NextIndex(es)]
  {
    IntValuesAppend(es, [Entry(IntKey(NextIndex(es)), v)]);
  }

  /** When the integer keys run b, b+1, ..., the next one is the one after the last. */
  lemma {:induction false} NextIndexConsecutive(es: seq<Entry>, b: nat)
    requires forall j :: 0 <= j < |IntKeys(es)| ==> IntKeys(es)[j] == b + j
    ensures NextIndex(es) == if IntKeys(es) == [] then 0 else b + |IntKeys(es)|
  {
    if es != [] {
      var tail := IntKeys(es[1..]);
      if es[0].key.IntKey? {
        assert IntKeys(es) == [es[0].key.index] + tail;
        assert forall j :: 0 <= j < |tail| ==> tail[j] == IntKeys(es)[j + 1];
        NextIndexConsecutive(es[1..], b + 1);
        assert IntKeys(es)[0] == es[0].key.index;
      } else {
        assert IntKeys(es) == tail;
        NextIndexConsecutive(es[1..], b);
      }
    }
  }

  /** Appending to a renumbered array uses the next number, so it stays renumbered. */
  lemma PushRenumbered(es: seq<Entry>, v: Value)
    requires Renumbered(es)
    ensures Renumbered(Push(es, v))
  {
    PushIntValues(es, v);
    NextIndexConsecutive(es, 0);
  }

  lemma PushGet(es: seq<Entry>, v: Value)
    ensures forall k :: k != IntKey(NextIndex(es)) ==> Get(Push(es, v), k) == Get(es, k)
    ensures !HasKey(es, IntKey(NextIndex(es)))
  {
    var r := Push(es, v);
    forall k | k != IntKey(NextIndex(es))
      ensures Get(r, k) == Get(es, k)
    {
      var j := Find(es, k);
      if j < |es| {
        FindIsFirst(r, k, j);
      } else {
        FindIsFirst(r, k, |r|);
      }
    }
  }

  lemma {:induction false} IntValuesAppend(a: seq<Entry>, b: seq<Entry>)
    ensures IntValues(a + b) == IntValues(a) + IntValues(b)
    ensures IntKeys(a + b) == IntKeys(a) + IntKeys(b)
  {
    ValuesOfAppend(a, b);
    KeysOfAppend(a, b);
  }

  lemma {:induction false} ValuesOfAppend(a: seq<Entry>, b: seq<Entry>)
    ensures IntValues(a + b) == IntValues(a) + IntValues(b)
  {
    if a == [] {
      assert a + b == b;
    } else {
      assert (a + b)[1..] == a[1..] + b;
      ValuesOfAppend(a[1..], b);
      var h := if a[0].key.IntKey? then [a[0].value] else [];
      assert IntValues(a + b) == h + IntValues(a[1..] + b);
      assert h + (IntValues(a[1..]) + IntValues(b)) == (h + IntValues(a[1..])) + IntValues(b);
    }
  }

  lemma {:induction false} KeysOfAppend(a: seq<Entry>, b: seq<Entry>)
    ensures IntKeys(a + b) == IntKeys(a) + IntKeys(b)
  {
    if a == [] {
      assert a + b == b;
    } else {
      assert (a + b)[1..] == a[1..] + b;
      KeysOfAppend(a[1..], b);
      var h := if a[0].key.IntKey? then [a[0].key.index] else [];
      assert IntKeys(a + b) == h + IntKeys(a[1..] + b);
      assert h + (IntKeys(a[1..]) + IntKeys(b)) == (h + IntKeys(a[1..])) + IntKeys(b);
    }
  }

  lemma {:induction false} IntValuesUpdateStr(es: seq<Entry>, i: nat, v: Value)
    requires i < |es| && es[i].key.StrKey?
    ensures IntValues(es[i := Entry(es[i].key, v)]) == IntValues(es)
    ensures IntKeys(es[i := Entry(es[i].key, v)]) == IntKeys(es)
  {
    if i > 0 {
      assert es[i := Entry(es[i].key, v)][1..] == es[1..][i - 1 := Entry(es[i].key, v)];
      IntValuesUpdateStr(es[1..], i - 1, v);
    }
  }

  /** `unset` removes `k` and leaves every other key's value alone. */
  lemma {:induction false} UnsetGet(es: seq<Entry>, k: Key)
    ensures !HasKey(Unset(es, k), k)
    ensures forall k' :: k' != k ==> Get(Unset(es, k), k') == Get(es, k')
    ensures k.StrKey? ==> IntValues(Unset(es, k)) == IntValues(es)
    ensures k.StrKey? ==> IntKeys(Unset(es, k)) == IntKeys(es)
  {
    if es != [] {
      UnsetGet(es[1..], k);
      var t := Unset(es[1..], k);
      if es[0].key != k {
        var r := [es[0]] + t;
        assert r[1..] == t;
        forall k' | k' != k
          ensures Get(r, k') == Get(es, k')
        {
          GetCons(es[0], t, k');
          GetCons(es[0], es[1..], k');
          assert [es[0]] + es[1..] == es;
        }
      }
    }
  }

  /** `unset` keeps an array valid. */
  lemma {:induction false} UnsetValid(es: seq<Entry>, k: Key)
    requires ValidArray(es)
    ensures ValidArray(Unset(es, k))
  {
    if es != [] {
      assert ValidArray(es[1..]);
      UnsetValid(es[1..], k);
      var t := Unset(es[1..], k);
      if es[0].key != k {
        var r := [es[0]] + t;
        forall i, j | 0 <= i < j < |r|
          ensures r[i].key != r[j].key
        {
          if i == 0 {
            assert r[j] in es[1..];
            var m :| 0 <= m < |es[1..]| && es[1..][m] == r[j];
            assert es[m + 1] == r[j];
          }
        }
      }
    }
  }

  /** Assignment keeps an array valid when the assigned value is well formed. */
  lemma SetValid(es: seq<Entry>, k: Key, v: Value)
    requires ValidArray(es) && WellFormed(v)
    ensures ValidArray(Set(es, k, v))
  {
  }

  /** Appending keeps an array valid: the new integer key is fresh. */
  lemma PushValid(es: seq<Entry>, v: Value)
    requires ValidArray(es) && WellFormed(v)
    ensures ValidArray(Push(es, v))
  {
  }

  // ---------------------------------------------------------------------------
  // array_merge
  // ---------------------------------------------------------------------------

  /**
   * Copies `src` into `dest` the way `array_merge` does: an entry under a
   * string key is assigned (a later value replaces an earlier one), an entry
   * under an integer key is appended with a fresh key.
   */
  function MergePlain(dest: seq<Entry>, src: seq<Entry>): seq<Entry>
    decreases src
  {
    if src == [] then dest else MergePlain(PlainStep(dest, src[0]), src[1..])
  }

  /** One entry of `array_merge`'s copy loop. */
  function PlainStep(dest: seq<Entry>, e: Entry): seq<Entry>
  {
    if e.key.StrKey? then Set(dest, e.key, e.value) else Push(dest, e.value)
  }

  /** PHP's `array_merge($a, $b)`. */
  function ArrayMerge(a: seq<Entry>, b: seq<Entry>): (r: seq<Entry>)
    ensures IntValues(r) == IntValues(a) + IntValues(b)
    ensures Renumbered(r)
  {
    MergePlainTwice(a, b);
    MergePlain(MergePlain([], a), b)
  }

  lemma MergePlainTwice(a: seq<Entry>, b: seq<Entry>)
    ensures IntValues(MergePlain(MergePlain([], a), b)) == IntValues(a) + IntValues(b)
    ensures Renumbered(MergePlain(MergePlain([], a), b))
  {
    MergePlainIntValues([], a);
    assert IntValues([]) + IntValues(a) == IntValues(a);
    MergePlainIntValues(MergePlain([], a), b);
    MergePlainRenumbered([], a);
    MergePlainRenumbered(MergePlain([], a), b);
  }

  lemma {:induction false} MergePlainGet(dest: seq<Entry>, src: seq<Entry>, name: string)
    requires UniqueKeys(src)
    ensures Get(MergePlain(dest, src), StrKey(name))
         == if HasKey(src, StrKey(name)) then Get(src, StrKey(name)) else Get(dest, StrKey(name))
    decreases src
  {
    var k := StrKey(name);
    if src != [] {
      var e := src[0];
      MergePlainGet(PlainStep(dest, e), src[1..], name);
      if e.key.StrKey? {
        SetGet(dest, e.key, e.value);
      } else {
        PushGet(dest, e.value);
      }
    }
  }

  lemma {:induction false} MergePlainIntValues(dest: seq<Entry>, src: seq<Entry>)
    ensures IntValues(MergePlain(dest, src)) == IntValues(dest) + IntValues(src)
    decreases src
  {
    if src != [] {
      var e := src[0];
      var step := PlainStep(dest, e);
      PlainStepIntValues(dest, e);
      MergePlainIntValues(step, src[1..]);
      assert MergePlain(dest, src) == MergePlain(step, src[1..]);
      assert IntValues(src) == IntValues([e]) + IntValues(src[1..]);
      assert (IntValues(dest) + IntValues([e])) + IntValues(src[1..])
          == IntValues(dest) + (IntValues([e]) + IntValues(src[1..]));
    }
  }

  /** One step of `array_merge`'s copy appends the entry's value when its key is an integer. */
  lemma PlainStepIntValues(dest: seq<Entry>, e: Entry)
    ensures IntValues(PlainStep(dest, e)) == IntValues(dest) + IntValues([e])
  {
    assert IntValues([e]) == (if e.key.IntKey? then [e.value] else []) + IntValues([]);
    if e.key.StrKey? {
      SetIntValues(dest, e.key.name, e.value);
    } else {
      PushIntValues(dest, e.value);
    }
  }

  lemma {:induction false} MergePlainRenumbered(dest: seq<Entry>, src: seq<Entry>)
    requires Renumbered(dest)
    ensures Renumbered(MergePlain(dest, src))
    decreases src
  {
    if src != [] {
      var e := src[0];
      if e.key.StrKey? {
        SetIntValues(dest, e.key.name, e.value);
      } else {
        PushRenumbered(dest, e.value);
      }
      MergePlainRenumbered(PlainStep(dest, e), src[1..]);
    }
  }

  lemma {:induction false} MergePlainValid(dest: seq<Entry>, src: seq<Entry>)
    requires ValidArray(dest) && ValidArray(src)
    ensures ValidArray(MergePlain(dest, src))
    decreases src
  {
    if src != [] {
      var e := src[0];
      assert WellFormed(e.value);
      assert ValidArray(src[1..]);
      if e.key.StrKey? {
        SetValid(dest, e.key, e.value);
      } else {
        PushValid(dest, e.value);
      }
      MergePlainValid(PlainStep(dest, e), src[1..]);
    }
  }

  /**
   * `array_merge`: a string key takes the second array's value when it has
   * one and keeps the first array's otherwise.
   */
  lemma ArrayMergeGet(a: seq<Entry>, b: seq<Entry>, name: string)
    requires UniqueKeys(a) && UniqueKeys(b)
    ensures Get(ArrayMerge(a, b), StrKey(name))
         == if HasKey(b, StrKey(name)) then Get(b, StrKey(name)) else Get(a, StrKey(name))
  {
    MergePlainGet([], a, name);
    MergePlainGet(MergePlain([], a), b, name);
  }

  /** `array_merge` of two valid arrays is a valid array. */
  lemma ArrayMergeValid(a: seq<Entry>, b: seq<Entry>)
    requires ValidArray(a) && ValidArray(b)
    ensures ValidArray(ArrayMerge(a, b))
  {
    MergePlainValid([], a);
    MergePlainValid(MergePlain([], a), b);
  }

  // ---------------------------------------------------------------------------
  // array_merge_recursive
  // ---------------------------------------------------------------------------

  /**
   * What `array_merge_recursive` makes of an existing value before adding to
   * it: an array stays as it is, a scalar or null `x` becomes `[0 => x]`.
   */
  function AsArray(v: Value): seq<Entry>
  {
    if v.Arr? then v.entries else [Entry(IntKey(0), v)]
  }

  function Width(v: Value): nat
  {
    if v.Arr? then |v.entries| else 0
  }

  /**
   * The value a string key ends up with when both arrays hold it: the
   * existing value `d`, made an array, receives the incoming `s`, merged
   * recursively when `s` is an array and appended when it is not.
   */
  function Combine(d: Value, s: Value): Value
    decreases s, Width(s) + 1
  {
    if s.Arr? then Arr(MergeFrom(AsArray(d), s, 0)) else Arr(Push(AsArray(d), s))
  }

  /** One entry of `array_merge_recursive`'s copy loop. */
  function MergeStep(dest: seq<Entry>, e: Entry): seq<Entry>
    decreases e.value, Width(e.value) + 2
  {
    match e.key
    case IntKey(_) => Push(dest, e.value)
    case StrKey(_) =>
      var i := Find(dest, e.key);
      if i < |dest| then Set(dest, e.key, Combine(dest[i].value, e.value)) else Set(dest, e.key, e.value)
  }

  /** Merges the entries of `src` from position `i` on into `dest`. */
  function MergeFrom(dest: seq<Entry>, src: Value, i: nat): seq<Entry>
    requires src.Arr? && i <= |src.entries|
    decreases src, |src.entries| - i
  {
    if i == |src.entries| then dest else MergeFrom(MergeStep(dest, src.entries[i]), src, i + 1)
  }

  /**
   * PHP's `array_merge_recursive($a, $b)`: `$a` is copied with its integer
   * keys renumbered, then `$b` is merged into the copy.
   */
  function MergeRecursive(a: seq<Entry>, b: seq<Entry>): (r: seq<Entry>)
    ensures IntValues(r) == IntValues(a) + IntValues(b)
    ensures Renumbered(r)
  {
    MergeIntoCopy(a, b);
    MergeFrom(MergePlain([], a), Arr(b), 0)
  }

  lemma MergeIntoCopy(a: seq<Entry>, b: seq<Entry>)
    ensures IntValues(MergeFrom(MergePlain([], a), Arr(b), 0)) == IntValues(a) + IntValues(b)
    ensures Renumbered(MergeFrom(MergePlain([], a), Arr(b), 0))
  {
    MergePlainIntValues([], a);
    assert IntValues([]) + IntValues(a) == IntValues(a);
    MergeFromIntValues(MergePlain([], a), Arr(b), 0);
    assert b[0..] == b;
    MergePlainRenumbered([], a);
    MergeFromRenumbered(MergePlain([], a), Arr(b), 0);
  }

  /** The value under one string key after a merge, from the values the two sides hold under it. */
  function Collide(d: Option<Value>, s: Option<Value>): Option<Value>
  {
    match s
    case None => d
    case Some(sv) => if d.Some? then Some(Combine(d.value, sv)) else s
  }

  lemma MergeStepGet(dest: seq<Entry>, e: Entry, name: string)
    ensures Get(MergeStep(dest, e), StrKey(name))
         == if e.key == StrKey(name) then Collide(Get(dest, StrKey(name)), Some(e.value)) else Get(dest, StrKey(name))
  {
    match e.key
    case IntKey(_) => PushGet(dest, e.value);
    case StrKey(_) =>
      var i := Find(dest, e.key);
      if i < |dest| {
        SetGet(dest, e.key, Combine(dest[i].value, e.value));
      } else {
        SetGet(dest, e.key, e.value);
      }
  }

  lemma {:induction false} MergeFromGet(dest: seq<Entry>, src: Value, i: nat, name: string)
    requires src.Arr? && i <= |src.entries| && UniqueKeys(src.entries)
    ensures Get(MergeFrom(dest, src, i), StrKey(name))
         == Collide(Get(dest, StrKey(name)), Get(src.entries[i..], StrKey(name)))
    decreases |src.entries| - i
  {
    var k := StrKey(name);
    if i < |src.entries| {
      var e := src.entries[i];
      MergeStepGet(dest, e, name);
      MergeFromGet(MergeStep(dest, e), src, i + 1, name);
      GetCons(e, src.entries[i + 1..], k);
      assert src.entries[i..] == [e] + src.entries[i + 1..];
    }
  }

  /**
   * `array_merge_recursive`, key by key: a string key held by one side only
   * keeps that side's value, and one held by both gets `Combine` of the two.
   */
  lemma MergeRecursiveGet(a: seq<Entry>, b: seq<Entry>, name: string)
    requires UniqueKeys(a) && UniqueKeys(b)
    ensures Get(MergeRecursive(a, b), StrKey(name)) == Collide(Get(a, StrKey(name)), Get(b, StrKey(name)))
  {
    MergePlainGet([], a, name);
    MergeFromGet(MergePlain([], a), Arr(b), 0, name);
    assert b[0..] == b;
  }

  /**
   * `r` still holds everything `d` held. An array keeps its entries in their
   * positions, with the same keys; an integer-keyed value is left as it was
   * and a string-keyed one may itself have grown. A scalar or null either
   * stays or has become the first element, under key 0, of an array.
   */
  predicate Retains(d: Value, r: Value)
    decreases d
  {
    match d
    case Arr(ds) =>
      && r.Arr?
      && |ds| <= |r.entries|
      && forall i :: 0 <= i < |ds| ==>
           && r.entries[i].key == ds[i].key
           && if ds[i].key.IntKey? then r.entries[i].value == ds[i].value
              else Retains(ds[i].value, r.entries[i].value)
    case _ => r == d || (r.Arr? && |r.entries| > 0 && r.entries[0] == Entry(IntKey(0), d))
  }

  lemma {:induction false} RetainsReflexive(v: Value)
    ensures Retains(v, v)
    decreases v
  {
    if v.Arr? {
      forall i | 0 <= i < |v.entries| && v.entries[i].key.StrKey?
        ensures Retains(v.entries[i].value, v.entries[i].value)
      {
        RetainsReflexive(v.entries[i].value);
      }
    }
  }

  lemma {:induction false} RetainsTransitive(a: Value, b: Value, c: Value)
    requires Retains(a, b) && Retains(b, c)
    ensures Retains(a, c)
    decreases a
  {
    if a.Arr? {
      forall i | 0 <= i < |a.entries| && a.entries[i].key.StrKey?
        ensures Retains(a.entries[i].value, c.entries[i].value)
      {
        RetainsTransitive(a.entries[i].value, b.entries[i].value, c.entries[i].value);
      }
    } else if b != a {
      assert c.entries[0].key == b.entries[0].key;
    }
  }

  /** Entries added at the end leave an array retained. */
  lemma RetainsAppend(es: seq<Entry>, more: seq<Entry>)
    ensures Retains(Arr(es), Arr(es + more))
  {
    RetainsReflexive(Arr(es));
  }

  /** So does giving a string key a value that retains its old one. */
  lemma RetainsUpdate(es: seq<Entry>, i: nat, v: Value)
    requires i < |es| && es[i].key.StrKey? && Retains(es[i].value, v)
    ensures Retains(Arr(es), Arr(es[i := Entry(es[i].key, v)]))
  {
    RetainsReflexive(Arr(es));
  }

  lemma {:induction false} CombineRetains(d: Value, s: Value)
    ensures Retains(d, Combine(d, s))
    decreases s, Width(s) + 1
  {
    if s.Arr? {
      MergeFromRetains(AsArray(d), s, 0);
      if !d.Arr? {
        var r := MergeFrom(AsArray(d), s, 0);
        assert r[0].key == IntKey(0);
      }
    } else {
      RetainsAppend(AsArray(d), [Entry(IntKey(NextIndex(AsArray(d))), s)]);
    }
  }

  lemma {:induction false} MergeStepRetains(dest: seq<Entry>, e: Entry)
    ensures Retains(Arr(dest), Arr(MergeStep(dest, e)))
    decreases e.value, Width(e.value) + 2
  {
    match e.key
    case IntKey(_) => RetainsAppend(dest, [Entry(IntKey(NextIndex(dest)), e.value)]);
    case StrKey(_) =>
      var i := Find(dest, e.key);
      if i < |dest| {
        CombineRetains(dest[i].value, e.value);
        RetainsUpdate(dest, i, Combine(dest[i].value, e.value));
      } else {
        RetainsAppend(dest, [e]);
      }
  }

  lemma {:induction false} MergeFromRetains(dest: seq<Entry>, src: Value, i: nat)
    requires src.Arr? && i <= |src.entries|
    ensures Retains(Arr(dest), Arr(MergeFrom(dest, src, i)))
    decreases src, |src.entries| - i
  {
    if i == |src.entries| {
      RetainsReflexive(Arr(dest));
    } else {
      var next := MergeStep(dest, src.entries[i]);
      MergeStepRetains(dest, src.entries[i]);
      MergeFromRetains(next, src, i + 1);
      RetainsTransitive(Arr(dest), Arr(next), Arr(MergeFrom(next, src, i + 1)));
    }
  }

  lemma MergeStepIntValues(dest: seq<Entry>, e: Entry)
    ensures IntValues(MergeStep(dest, e)) == IntValues(dest) + IntValues([e])
    ensures e.key.StrKey? ==> IntKeys(MergeStep(dest, e)) == IntKeys(dest)
  {
    match e.key
    case IntKey(_) => PushIntValues(dest, e.value);
    case StrKey(name) =>
      var i := Find(dest, e.key);
      if i < |dest| {
        SetIntValues(dest, name, Combine(dest[i].value, e.value));
      } else {
        SetIntValues(dest, name, e.value);
      }
  }

  lemma {:induction false} MergeFromIntValues(dest: seq<Entry>, src: Value, i: nat)
    requires src.Arr? && i <= |src.entries|
    ensures IntValues(MergeFrom(dest, src, i)) == IntValues(dest) + IntValues(src.entries[i..])
    decreases |src.entries| - i
  {
    if i < |src.entries| {
      var e := src.entries[i];
      MergeStepIntValues(dest, e);
      MergeFromIntValues(MergeStep(dest, e), src, i + 1);
      assert src.entries[i..] == [e] + src.entries[i + 1..];
      IntValuesAppend([e], src.entries[i + 1..]);
      var rest := IntValues(src.entries[i + 1..]);
      assert IntValues(MergeFrom(dest, src, i)) == (IntValues(dest) + IntValues([e])) + rest;
      assert (IntValues(dest) + IntValues([e])) + rest == IntValues(dest) + (IntValues([e]) + rest);
    }
  }

  lemma {:induction false} MergeFromRenumbered(dest: seq<Entry>, src: Value, i: nat)
    requires src.Arr? && i <= |src.entries| && Renumbered(dest)
    ensures Renumbered(MergeFrom(dest, src, i))
    decreases |src.entries| - i
  {
    if i < |src.entries| {
      var e := src.entries[i];
      if e.key.IntKey? {
        PushRenumbered(dest, e.value);
      } else {
        MergeStepIntValues(dest, e);
      }
      MergeFromRenumbered(MergeStep(dest, e), src, i + 1);
    }
  }

  lemma {:induction false} CombineValid(d: Value, s: Value)
    requires WellFormed(d) && WellFormed(s)
    ensures WellFormed(Combine(d, s))
    decreases s, Width(s) + 1
  {
    assert ValidArray(AsArray(d));
    if s.Arr? {
      MergeFromValid(AsArray(d), s, 0);
    } else {
      PushValid(AsArray(d), s);
    }
  }

  lemma {:induction false} MergeStepValid(dest: seq<Entry>, e: Entry)
    requires ValidArray(dest) && WellFormed(e.value)
    ensures ValidArray(MergeStep(dest, e))
    decreases e.value, Width(e.value) + 2
  {
    match e.key
    case IntKey(_) => PushValid(dest, e.value);
    case StrKey(_) =>
      var i := Find(dest, e.key);
      if i < |dest| {
        CombineValid(dest[i].value, e.value);
        SetValid(dest, e.key, Combine(dest[i].value, e.value));
      } else {
        SetValid(dest, e.key, e.value);
      }
  }

  lemma {:induction false} MergeFromValid(dest: seq<Entry>, src: Value, i: nat)
    requires src.Arr? && i <= |src.entries|
    requires ValidArray(dest) && WellFormed(src)
    ensures ValidArray(MergeFrom(dest, src, i))
    decreases src, |src.entries| - i
  {
    if i < |src.entries| {
      MergeStepValid(dest, src.entries[i]);
      MergeFromValid(MergeStep(dest, src.entries[i]), src, i + 1);
    }
  }

  /**
   * `array_merge_recursive` never drops what the first array held under a
   * string key: the merged value retains it.
   */
  lemma MergeRecursiveRetains(a: seq<Entry>, b: seq<Entry>, name: string)
    requires UniqueKeys(a) && UniqueKeys(b) && HasKey(a, StrKey(name))
    ensures HasKey(MergeRecursive(a, b), StrKey(name))
    ensures Retains(Get(a, StrKey(name)).value, Get(MergeRecursive(a, b), StrKey(name)).value)
  {
    var k := StrKey(name);
    MergeRecursiveGet(a, b, name);
    var d := Get(a, k).value;
    if HasKey(b, k) {
      CombineRetains(d, Get(b, k).value);
    } else {
      RetainsReflexive(d);
    }
  }

  /** `array_merge_recursive` of two valid arrays is a valid array. */
  lemma MergeRecursiveValid(a: seq<Entry>, b: seq<Entry>)
    requires ValidArray(a) && ValidArray(b)
    ensures ValidArray(MergeRecursive(a, b))
  {
    MergePlainValid([], a);
    MergeFromValid(MergePlain([], a), Arr(b), 0);
  }
}
