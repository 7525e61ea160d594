/**
 * PHP values and PHP's ordered arrays, as far as the boot scripts use them:
 * reading a key, writing a key in place, `empty`, `isset`, `$a[] = v` and
 * `array_replace_recursive`.
 *
 * An array is a sequence of entries in insertion order. Writing an existing
 * key replaces its value where it stands; writing a new key appends it.
 * Floating-point values and references are not part of this model.
 */
module PhpArrays {
  import opened Optional

  datatype Key = IntKey(i: int) | StrKey(s: string)

  datatype PhpValue =
    | Null
    | Bool(b: bool)
    | Int(i: int)
    | Str(s: string)
    | Arr(entries: seq<Entry>)

  datatype Entry = Entry(key: Key, value: PhpValue)

  predicate HasKey(es: seq<Entry>, k: Key) {
    exists i :: 0 <= i < |es| && es[i].key == k
  }

  /** PHP arrays never hold a key twice. */
  predicate DistinctKeys(es: seq<Entry>) {
    forall i, j :: 0 <= i < j < |es| ==> es[i].key != es[j].key
  }

  /** Distinct keys at every depth of nesting. */
  predicate WellFormed(v: PhpValue) {
    match v
    case Arr(es) => DistinctKeys(es) && forall i :: 0 <= i < |es| ==> WellFormed(es[i].value)
    case _ => true
  }

  /** The position of the first entry under `k`, or -1 when there is none. */
  function IndexOf(es: seq<Entry>, k: Key): (r: int)
    ensures -1 <= r < |es|
    ensures r >= 0 ==> es[r].key == k && forall j :: 0 <= j < r ==> es[j].key != k
    ensures r < 0 ==> forall j :: 0 <= j < |es| ==> es[j].key != k
  {
    if es == [] then -1
    else if es[0].key == k then 0
    else
      var r := IndexOf(es[1..], k);
      assert forall j :: 0 < j < |es| ==> es[j] == es[1..][j - 1];
      if r < 0 then -1 else r + 1
  }

  /** `$a[$k]`: the value stored under `k`, if any. */
  function Lookup(es: seq<Entry>, k: Key): (r: Option<PhpValue>)
    ensures r.Some? <==> HasKey(es, k)
    ensures r.Some? ==> exists i :: 0 <= i < |es| && es[i] == Entry(k, r.value) &&
                                    forall j :: 0 <= j < i ==> es[j].key != k
  {
    var i := IndexOf(es, k);
    if i < 0 then None else Some(es[i].value)
  }

  /** `$a[$k] = $v`: replaces the value in place when `k` is present, appends otherwise. */
  function Put(es: seq<Entry>, k: Key, v: PhpValue): (r: seq<Entry>)
    ensures Lookup(r, k) == Some(v)
    ensures forall k' :: k' != k ==> Lookup(r, k') == Lookup(es, k')
    ensures forall k' :: HasKey(r, k') <==> HasKey(es, k') || k' == k
    ensures !HasKey(es, k) ==> r == es + [Entry(k, v)]
    ensures HasKey(es, k) ==> |r| == |es| && forall i :: 0 <= i < |es| ==> r[i].key == es[i].key
    ensures DistinctKeys(es) ==> DistinctKeys(r)
    ensures WellFormed(Arr(es)) && WellFormed(v) ==> WellFormed(Arr(r))
  {
    var i := IndexOf(es, k);
    var r := if i < 0 then es + [Entry(k, v)] else es[i := Entry(k, v)];
    assert forall j :: 0 <= j < |es| ==> r[j].key == es[j].key;
    forall k' | k' != k ensures IndexOf(r, k') == IndexOf(es, k') {
      IndexOfOtherKey(es, r, k, k');
    }
    IndexOfWrittenKey(es, r, k);
    r
  }

  /**
   * `r` has the keys of `es` at the same positions, and possibly one more
   * entry under `k` at the end: every other key is found where it was.
   */
  lemma IndexOfOtherKey(es: seq<Entry>, r: seq<Entry>, k: Key, k': Key)
    requires |es| <= |r| <= |es| + 1
    requires forall j :: 0 <= j < |es| ==> r[j].key == es[j].key
    requires |r| > |es| ==> r[|es|].key == k
    requires k' != k
    ensures IndexOf(r, k') == IndexOf(es, k')
  {
    var a := IndexOf(r, k');
    if 0 <= a < |es| { assert es[a].key == k'; }
  }

  /** With the keys of `es` kept, `k` is found where it was, or in the appended entry when it was absent. */
  lemma IndexOfWrittenKey(es: seq<Entry>, r: seq<Entry>, k: Key)
    requires |es| <= |r|
    requires forall j :: 0 <= j < |es| ==> r[j].key == es[j].key
    requires IndexOf(es, k) < 0 ==> |r| == |es| + 1 && r[|es|].key == k
    requires IndexOf(es, k) >= 0 ==> |r| == |es|
    ensures IndexOf(r, k) == if IndexOf(es, k) < 0 then |es| else IndexOf(es, k)
  {
    var a := IndexOf(r, k);
    if 0 <= a < |es| { assert es[a].key == k; }
  }

  /** With distinct keys, the value found under an entry's key is that entry's value. */
  lemma LookupAt(es: seq<Entry>, i: nat)
    requires DistinctKeys(es) && i < |es|
    ensures Lookup(es, es[i].key) == Some(es[i].value)
  {
    var r := Lookup(es, es[i].key);
    var j :| 0 <= j < |es| && es[j] == Entry(es[i].key, r.value) && forall m :: 0 <= m < j ==> es[m].key != es[i].key;
  }

  /** Writing back the value an entry already holds changes nothing. */
  lemma {:induction false} PutSame(es: seq<Entry>, i: nat)
    requires DistinctKeys(es) && i < |es|
    ensures Put(es, es[i].key, es[i].value) == es
  {
    if i > 0 {
      assert DistinctKeys(es[1..]);
      assert es[1..][i - 1] == es[i];
      PutSame(es[1..], i - 1);
    }
  }

  /** The elements of a well-formed array are well formed. */
  lemma LookupWellFormed(es: seq<Entry>, k: Key)
    requires WellFormed(Arr(es)) && Lookup(es, k).Some?
    ensures WellFormed(Lookup(es, k).value)
  {
  }

  /** `isset($a[$k])`: present and not null. */
  predicate IsSet(v: Option<PhpValue>) {
    v.Some? && !v.value.Null?
  }

  /** `empty($a[$k])`: unset, or a value PHP treats as false. */
  predicate Empty(v: Option<PhpValue>) {
    match v
    case None => true
    case Some(x) =>
      match x
      case Null => true
      case Bool(b) => !b
      case Int(n) => n == 0
      case Str(s) => s == "" || s == "0"
      case Arr(es) => es == []
  }

  /** The key `$a[] = $v` uses: one more than the largest integer key, and never below 0. */
  function NextIndex(es: seq<Entry>): (r: int)
    ensures r >= 0
    ensures forall i :: 0 <= i < |es| && es[i].key.IntKey? ==> es[i].key.i < r
    ensures r == 0 || exists i :: 0 <= i < |es| && es[i].key == IntKey(r - 1)
  {
    if es == [] then 0
    else
      var rest := NextIndex(es[1..]);
      assert forall i :: 1 <= i < |es| ==> es[i] == es[1..][i - 1];
      var here := if es[0].key.IntKey? && es[0].key.i + 1 > rest then es[0].key.i + 1 else rest;
      assert here == 0 || exists i :: 0 <= i < |es| && es[i].key == IntKey(here - 1) by {
        if here != 0 && here == rest {
          var i :| 0 <= i < |es[1..]| && es[1..][i].key == IntKey(rest - 1);
          assert es[i + 1].key == IntKey(rest - 1);
        }
      }
      here
  }

  /** `$a[] = $v`: appends `v` under the next free integer key. */
  function Append(es: seq<Entry>, v: PhpValue): (r: seq<Entry>)
    ensures r == es + [Entry(IntKey(NextIndex(es)), v)]
  {
    assert !HasKey(es, IntKey(NextIndex(es)));
    Put(es, IntKey(NextIndex(es)), v)
  }

  /**
   * `array_replace_recursive($base, $replacement)`: every key of the
   * replacement is written into the base in the replacement's order; where
   * both sides hold an array under that key, the two are merged recursively
   * instead.
   */
  function ReplaceRecursive(base: seq<Entry>, replacement: seq<Entry>): seq<Entry>
  {
    ReplaceFrom(base, replacement, 0)
  }

  function ReplaceFrom(base: seq<Entry>, replacement: seq<Entry>, i: nat): seq<Entry>
    requires i <= |replacement|
    decreases Arr(replacement), |replacement| - i
  {
    if i == |replacement| then base
    else ReplaceFrom(ReplaceEntry(base, replacement[i]), replacement, i + 1)
  }

  /** One step of `array_replace_recursive`: writes one entry of the replacement into the base. */
  function ReplaceEntry(base: seq<Entry>, e: Entry): seq<Entry>
    decreases e, 0
  {
    var current := Lookup(base, e.key);
    var merged :=
      if e.value.Arr? && current.Some? && current.value.Arr?
      then Arr(ReplaceFrom(current.value.entries, e.value.entries, 0))
      else e.value;
    Put(base, e.key, merged)
  }

  /** What `array_replace_recursive` leaves under one key, given what each side holds there. */
  function MergedLookup(current: Option<PhpValue>, replacement: Option<PhpValue>): Option<PhpValue>
  {
    match replacement
    case None => current
    case Some(rv) =>
      if rv.Arr? && current.Some? && current.value.Arr?
      then Some(Arr(ReplaceRecursive(current.value.entries, rv.entries)))
      else Some(rv)
  }

  /**
   * Key by key, `array_replace_recursive` keeps what the base has where the
   * replacement is silent, takes the replacement's value otherwise, and
   * merges the two where both hold arrays.
   */
  lemma LookupReplaceRecursive(base: seq<Entry>, replacement: seq<Entry>, k: Key)
    requires DistinctKeys(replacement)
    ensures Lookup(ReplaceRecursive(base, replacement), k) == MergedLookup(Lookup(base, k), Lookup(replacement, k))
  {
    LookupReplaceFrom(base, replacement, 0, k);
  }

  lemma {:induction false} LookupReplaceFrom(base: seq<Entry>, replacement: seq<Entry>, i: nat, k: Key)
    requires DistinctKeys(replacement) && i <= |replacement|
    ensures Lookup(ReplaceFrom(base, replacement, i), k) == MergedLookup(Lookup(base, k), Lookup(replacement[i..], k))
    decreases |replacement| - i
  {
    if i < |replacement| {
      var e := replacement[i];
      var next := ReplaceEntry(base, e);
      LookupReplaceFrom(next, replacement, i + 1, k);
      LookupReplaceEntry(base, e, k);
      LookupSuffix(replacement, i, k);
    } else {
      assert replacement[i..] == [];
    }
  }

  /** One step of the merge changes only the key it writes. */
  lemma LookupReplaceEntry(base: seq<Entry>, e: Entry, k: Key)
    ensures Lookup(ReplaceEntry(base, e), k) ==
            if e.key == k then MergedLookup(Lookup(base, k), Some(e.value)) else Lookup(base, k)
  {
  }

  /** The first entry of a suffix of an array with distinct keys answers for its own key only. */
  lemma LookupSuffix(replacement: seq<Entry>, i: nat, k: Key)
    requires DistinctKeys(replacement) && i < |replacement|
    ensures Lookup(replacement[i..], k) ==
            if replacement[i].key == k then Some(replacement[i].value) else Lookup(replacement[i + 1..], k)
  {
    var e := replacement[i];
    var rest := replacement[i..];
    assert rest == [e] + replacement[i + 1..];
    LookupCons(e, replacement[i + 1..], k);
    if e.key == k {
      assert DistinctKeys(rest);
      HeadKeyNotInTail(rest);
      assert rest[1..] == replacement[i + 1..];
    }
  }

  /** Looking up in an array that starts with `e`. */
  lemma LookupCons(e: Entry, s: seq<Entry>, k: Key)
    ensures Lookup([e] + s, k) == if e.key == k then Some(e.value) else Lookup(s, k)
  {
    var es := [e] + s;
    assert forall j :: 0 < j < |es| ==> es[j] == s[j - 1];
    if e.key != k {
      var a, b := IndexOf(es, k), IndexOf(s, k);
      if a > 0 { assert s[a - 1].key == k; }
      if b >= 0 { assert es[b + 1].key == k; }
    }
  }

  /** In an array with distinct keys, the first key does not occur again. */
  lemma HeadKeyNotInTail(s: seq<Entry>)
    requires DistinctKeys(s) && |s| > 0
    ensures Lookup(s[1..], s[0].key) == None
  {
    forall j | 0 <= j < |s[1..]| ensures s[1..][j].key != s[0].key {
      assert s[1..][j] == s[j + 1];
    }
  }

  /** Replacing an array with itself gives it back unchanged. */
  lemma ReplaceRecursiveSelf(a: seq<Entry>)
    requires WellFormed(Arr(a))
    ensures ReplaceRecursive(a, a) == a
  {
    ReplaceSelfFrom(a, 0);
  }

  lemma {:induction false} ReplaceSelfFrom(a: seq<Entry>, i: nat)
    requires WellFormed(Arr(a)) && i <= |a|
    ensures ReplaceFrom(a, a, i) == a
    decreases Arr(a), |a| - i
  {
    if i < |a| {
      var e := a[i];
      LookupAt(a, i);
      if e.value.Arr? {
        ReplaceSelfFrom(e.value.entries, 0);
      }
      PutSame(a, i);
      ReplaceSelfFrom(a, i + 1);
    }
  }

  /** Replacing into an empty array copies the replacement, order included. */
  lemma ReplaceRecursiveIntoEmpty(r: seq<Entry>)
    requires DistinctKeys(r)
    ensures ReplaceRecursive([], r) == r
  {
    assert r[..0] == [];
    ReplaceIntoPrefix(r, 0);
  }

  lemma {:induction false} ReplaceIntoPrefix(r: seq<Entry>, i: nat)
    requires DistinctKeys(r) && i <= |r|
    ensures ReplaceFrom(r[..i], r, i) == r
    decreases |r| - i
  {
    if i < |r| {
      forall j | 0 <= j < |r[..i]| ensures r[..i][j].key != r[i].key {
        assert r[..i][j] == r[j];
      }
      assert r[..i] + [Entry(r[i].key, r[i].value)] == r[..i + 1];
      ReplaceIntoPrefix(r, i + 1);
    } else {
      assert r[..i] == r;
    }
  }

  /** `array_replace_recursive` of well-formed arrays is well formed. */
  lemma ReplaceRecursiveWellFormed(base: seq<Entry>, replacement: seq<Entry>)
    requires WellFormed(Arr(base)) && WellFormed(Arr(replacement))
    ensures WellFormed(Arr(ReplaceRecursive(base, replacement)))
  {
    ReplaceFromWellFormed(base, replacement, 0);
  }

  lemma {:induction false} ReplaceFromWellFormed(base: seq<Entry>, replacement: seq<Entry>, i: nat)
    requires WellFormed(Arr(base)) && WellFormed(Arr(replacement)) && i <= |replacement|
    ensures WellFormed(Arr(ReplaceFrom(base, replacement, i)))
    decreases Arr(replacement), |replacement| - i
  {
    if i < |replacement| {
      var e := replacement[i];
      var current := Lookup(base, e.key);
      if e.value.Arr? && current.Some? && current.value.Arr? {
        LookupWellFormed(base, e.key);
        ReplaceFromWellFormed(current.value.entries, e.value.entries, 0);
      }
      var merged :=
        if e.value.Arr? && current.Some? && current.value.Arr?
        then Arr(ReplaceFrom(current.value.entries, e.value.entries, 0))
        else e.value;
      ReplaceFromWellFormed(Put(base, e.key, merged), replacement, i + 1);
    }
  }
}
