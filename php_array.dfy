/**
 * PHP values as the theme's filters see them: scalars, ordered arrays whose
 * entries keep their insertion order, and objects with named properties.
 * Arrays are values: every update below builds a new array.
 */
module PhpArray {
  import opened Wrappers

  datatype Key = IntKey(n: int) | StrKey(s: string)

  datatype Value =
    | Null
    | Bool(b: bool)
    | Int(n: int)
    | Str(s: string)
    | Arr(entries: seq<Entry>)
    | Object(props: seq<Entry>)

  datatype Entry = Entry(key: Key, value: Value)

  function Keys(es: seq<Entry>): (ks: seq<Key>)
    ensures |ks| == |es|
    ensures forall i :: 0 <= i < |es| ==> ks[i] == es[i].key
  {
    seq(|es|, i requires 0 <= i < |es| => es[i].key)
  }

  function ValuesOf(es: seq<Entry>): (vs: seq<Value>)
    ensures |vs| == |es|
    ensures forall i :: 0 <= i < |es| ==> vs[i] == es[i].value
  {
    seq(|es|, i requires 0 <= i < |es| => es[i].value)
  }

  /** No key occurs twice, as in every PHP array. */
  predicate UniqueKeys(es: seq<Entry>) {
    forall i, j :: 0 <= i < j < |es| ==> es[i].key != es[j].key
  }

  /** `$a[$k]` where `array_key_exists($k, $a)`; `None` for a missing key. */
  function Get(es: seq<Entry>, k: Key): (r: Option<Value>)
    ensures r.None? <==> k !in Keys(es)
    ensures r.Some? ==> exists i :: 0 <= i < |es| && es[i] == Entry(k, r.value)
  {
    if es == [] then None
    else if es[0].key == k then Some(es[0].value)
    else Get(es[1..], k)
  }

  /** The entry at index `i` is what its key reads, when no earlier entry has that key. */
  lemma {:induction false} GetAt(es: seq<Entry>, i: nat)
    requires i < |es|
    requires forall j :: 0 <= j < i ==> es[j].key != es[i].key
    ensures Get(es, es[i].key) == Some(es[i].value)
  {
    if i > 0 {
      GetAt(es[1..], i - 1);
    }
  }

  /** `isset($a[$k])`: the key is present and its value is not null. */
  predicate IsSet(es: seq<Entry>, k: Key) {
    Get(es, k).Some? && !Get(es, k).value.Null?
  }

  /** `$a[$k] = $v`: an existing entry is replaced where it stands, a new key goes last. */
  function Set(es: seq<Entry>, k: Key, v: Value): (r: seq<Entry>)
  {
    if es == [] then [Entry(k, v)]
    else if es[0].key == k then [Entry(k, v)] + es[1..]
    else [es[0]] + Set(es[1..], k, v)
  }

  /** After `$a[$k] = $v`, `$a[$k]` is `$v` and every other key reads as before. */
  lemma {:induction false} GetSet(es: seq<Entry>, k: Key, v: Value, other: Key)
    ensures Get(Set(es, k, v), k) == Some(v)
    ensures other != k ==> Get(Set(es, k, v), other) == Get(es, other)
  {
    if es != [] && es[0].key != k {
      GetSet(es[1..], k, v, other);
    }
  }

  /** `$a[$k] = $v` keeps the order of the keys, adding a new key at the end. */
  lemma {:induction false} SetKeys(es: seq<Entry>, k: Key, v: Value)
    ensures k in Keys(es) ==> Keys(Set(es, k, v)) == Keys(es)
    ensures k !in Keys(es) ==> Keys(Set(es, k, v)) == Keys(es) + [k]
  {
    if es != [] && es[0].key != k {
      SetKeys(es[1..], k, v);
      assert Keys(es) == [es[0].key] + Keys(es[1..]);
      assert Keys(Set(es, k, v)) == [es[0].key] + Keys(Set(es[1..], k, v));
    } else if es != [] {
      assert Keys(Set(es, k, v)) == Keys(es);
    }
  }

  /** `$a[$k] = $v` keeps every key where it was, and keeps them unique. */
  lemma SetKeepsKeys(es: seq<Entry>, k: Key, v: Value)
    ensures Keys(es) <= Keys(Set(es, k, v))
    ensures UniqueKeys(es) ==> UniqueKeys(Set(es, k, v))
  {
    SetKeys(es, k, v);
    if UniqueKeys(es) {
      SetUnique(es, k, v);
    }
  }

  /** `$a[$k] = $v` keeps the keys unique. */
  lemma SetUnique(es: seq<Entry>, k: Key, v: Value)
    requires UniqueKeys(es)
    ensures UniqueKeys(Set(es, k, v))
  {
    SetKeys(es, k, v);
    var r := Set(es, k, v);
    forall i, j | 0 <= i < j < |r|
      ensures r[i].key != r[j].key
    {
      assert Keys(r)[i] == r[i].key && Keys(r)[j] == r[j].key;
      if j < |es| {
        assert Keys(es)[i] == es[i].key && Keys(es)[j] == es[j].key;
      }
    }
  }

  /** The largest integer key, if any. */
  function MaxIntKey(es: seq<Entry>): (m: Option<int>)
    ensures m.None? <==> forall i :: 0 <= i < |es| ==> !es[i].key.IntKey?
    ensures m.Some? ==> forall i :: 0 <= i < |es| && es[i].key.IntKey? ==> es[i].key.n <= m.value
    ensures m.Some? ==> exists i :: 0 <= i < |es| && es[i].key == IntKey(m.value)
  {
    if es == [] then None
    else
      var rest := MaxIntKey(es[..|es| - 1]);
      var last := es[|es| - 1].key;
      if !last.IntKey? then rest
      else if rest.Some? && rest.value >= last.n then rest
      else Some(last.n)
  }

  /** The key `$a[] = $v` uses: one past the largest integer key, 0 when there is none. */
  function NextIndex(es: seq<Entry>): (n: int)
    ensures forall i :: 0 <= i < |es| && es[i].key.IntKey? ==> es[i].key.n < n
  {
    match MaxIntKey(es)
    case None => 0
    case Some(m) => m + 1
  }

  /** `$a[] = $v`. */
  function Push(es: seq<Entry>, v: Value): (r: seq<Entry>)
    ensures UniqueKeys(es) ==> UniqueKeys(r)
    ensures ValuesOf(r) == ValuesOf(es) + [v]
    ensures r[..|es|] == es
  {
    es + [Entry(IntKey(NextIndex(es)), v)]
  }

  /** A list literal `array($v0, $v1, …)`: the values under keys 0, 1, …. */
  function ListOf(vs: seq<Value>): (r: seq<Entry>)
    ensures UniqueKeys(r)
    ensures forall i :: 0 <= i < |r| ==> r[i].key == IntKey(i)
    ensures ValuesOf(r) == vs
  {
    seq(|vs|, i requires 0 <= i < |vs| => Entry(IntKey(i), vs[i]))
  }

  /** Appending to a list gives the list one element longer. */
  lemma {:induction false} PushList(vs: seq<Value>, v: Value)
    ensures Push(ListOf(vs), v) == ListOf(vs + [v])
  {
    var es := ListOf(vs);
    if vs != [] {
      assert es[|es| - 1].key == IntKey(|vs| - 1);
      assert MaxIntKey(es) == Some(|vs| - 1);
    }
    assert NextIndex(es) == |vs|;
  }
}
