/** Documents as Ruby holds them after YAML or JSON loading: strings,
    integers, booleans, nil, dates, arrays and insertion-ordered hashes
    with string keys.  A hash is a sequence of entries; the operations on
    it below follow Ruby's Hash (`h[k]`, `h[k] = v`, `h.delete(k)`). */
module Values {

  datatype Option<+T> = None | Some(value: T)

  datatype Result<+T, +E> = Success(value: T) | Failure(error: E) {
    predicate IsFailure() {
      Failure?
    }

    function PropagateFailure<U>(): Result<U, E>
      requires Failure?
    {
      Failure(error)
    }

    function Extract(): T
      requires Success?
    {
      value
    }
  }

  /** One key/value pair of a hash; generic so that the comparison tree of
      the `compare` command can reuse it. */
  datatype Entry<+T> = Entry(key: string, val: T)

  datatype Value =
    | Str(s: string)
    | Num(n: int)
    | Bool(b: bool)
    | Null
    | Date(iso: string)   // a YAML date; `iso` is what Date#to_s prints
    | Arr(items: seq<Value>)
    | Obj(entries: seq<Entry<Value>>)

  /** Ruby's truthiness: everything except nil and false. */
  predicate Truthy(v: Value) {
    !(v.Null? || v == Bool(false))
  }

  lemma AppendAssoc<T>(a: seq<T>, b: seq<T>, c: seq<T>)
    ensures a + b + c == a + (b + c)
  {
  }

  // ---------------------------------------------------------------------
  // Hash operations

  function Keys<T>(es: seq<Entry<T>>): (ks: seq<string>)
    ensures |ks| == |es|
    ensures forall i :: 0 <= i < |es| ==> ks[i] == es[i].key
  {
    seq(|es|, i requires 0 <= i < |es| => es[i].key)
  }

  /** A Ruby hash never holds a key twice. */
  predicate UniqueKeys<T>(es: seq<Entry<T>>) {
    forall i, j :: 0 <= i < j < |es| ==> es[i].key != es[j].key
  }

  /** Position of the entry for `k`, if there is one. */
  function IndexOf<T>(es: seq<Entry<T>>, k: string): (r: Option<nat>)
    ensures r.Some? ==> r.value < |es| && es[r.value].key == k
    ensures r.Some? ==> forall j :: 0 <= j < r.value ==> es[j].key != k
    ensures r.None? <==> k !in Keys(es)
  {
    if es == [] then None
    else if es[0].key == k then Some(0)
    else match IndexOf(es[1..], k)
      case None => None
      case Some(i) => Some(i + 1)
  }

  function Lookup<T>(es: seq<Entry<T>>, k: string): (r: Option<T>)
    ensures r.Some? <==> k in Keys(es)
    ensures r.Some? ==> exists i :: 0 <= i < |es| && es[i] == Entry(k, r.value)
  {
    match IndexOf(es, k)
    case None => None
    case Some(i) => Some(es[i].val)
  }

  /** Ruby's `h[k]` on a document hash: nil for a missing key. */
  function Get(es: seq<Entry<Value>>, k: string): (v: Value)
    ensures k !in Keys(es) ==> v == Null
    ensures k in Keys(es) ==> Lookup(es, k) == Some(v)
  {
    match Lookup(es, k)
    case None => Null
    case Some(v) => v
  }

  /** Ruby's `h[k] = v`: an existing key keeps its position and takes the
      new value; a new key is appended. */
  function Put<T>(es: seq<Entry<T>>, k: string, v: T): (r: seq<Entry<T>>)
    ensures k in Keys(es) ==> Keys(r) == Keys(es)
    ensures k !in Keys(es) ==> Keys(r) == Keys(es) + [k]
    ensures Lookup(r, k) == Some(v)
    ensures forall k' :: k' != k ==> Lookup(r, k') == Lookup(es, k')
  {
    match IndexOf(es, k)
    case Some(i) =>
      var r := es[i := Entry(k, v)];
      assert forall k' :: k' != k ==> IndexOf(r, k') == IndexOf(es, k') by {
        forall k' | k' != k ensures IndexOf(r, k') == IndexOf(es, k') {
          IndexOfUpdate(es, i, k, v, k');
        }
      }
      IndexOfFirst(r, i, k);
      r
    case None =>
      var r := es + [Entry(k, v)];
      assert forall k' :: k' != k ==> IndexOf(r, k') == IndexOf(es, k') by {
        forall k' | k' != k ensures IndexOf(r, k') == IndexOf(es, k') {
          IndexOfAppend(es, Entry(k, v), k');
        }
      }
      IndexOfFirst(r, |es|, k);
      r
  }

  /** Ruby's `h.delete(k)`: the entry for `k` goes, the others keep their
      order. */
  function Delete<T>(es: seq<Entry<T>>, k: string): (r: seq<Entry<T>>)
    ensures k !in Keys(r)
    ensures k !in Keys(es) ==> r == es
    ensures forall k' :: k' != k ==> Lookup(r, k') == Lookup(es, k')
    ensures forall e :: e in r ==> e in es
    ensures |r| <= |es|
  {
    if es == [] then []
    else if es[0].key == k then Delete(es[1..], k)
    else
      var rest := Delete(es[1..], k);
      assert forall k' :: k' != k ==> Lookup([es[0]] + rest, k') == Lookup(es, k') by {
        forall k' | k' != k ensures Lookup([es[0]] + rest, k') == Lookup(es, k') {
          LookupCons(es[0], rest, k');
          LookupCons(es[0], es[1..], k');
          assert [es[0]] + es[1..] == es;
        }
      }
      [es[0]] + rest
  }

  /** Deleting a key keeps the keys of a hash distinct. */
  lemma {:induction false} DeleteUnique<T>(es: seq<Entry<T>>, k: string)
    requires UniqueKeys(es)
    ensures UniqueKeys(Delete(es, k))
    decreases |es|
  {
    if es != [] {
      DeleteUnique(es[1..], k);
      if es[0].key != k {
        var rest := Delete(es[1..], k);
        forall j | 0 <= j < |rest| ensures rest[j].key != es[0].key {
          assert rest[j] in es[1..];
        }
        assert Delete(es, k) == [es[0]] + rest;
      }
    }
  }

  /** Looking up in a hash with one more entry in front. */
  lemma LookupCons<T>(e: Entry<T>, rest: seq<Entry<T>>, k: string)
    ensures Lookup([e] + rest, k) == if e.key == k then Some(e.val) else Lookup(rest, k)
  {
    assert ([e] + rest)[1..] == rest;
  }

  lemma IndexOfFirst<T>(es: seq<Entry<T>>, i: nat, k: string)
    requires i < |es| && es[i].key == k
    requires forall j :: 0 <= j < i ==> es[j].key != k
    ensures IndexOf(es, k) == Some(i)
  {
    assert Keys(es)[i] == k;
    var r := IndexOf(es, k);
    assert r.Some?;
    assert !(r.value < i) && !(i < r.value);
  }

  lemma IndexOfUpdate<T>(es: seq<Entry<T>>, i: nat, k: string, v: T, k': string)
    requires i < |es| && es[i].key == k && k' != k
    ensures IndexOf(es[i := Entry(k, v)], k') == IndexOf(es, k')
  {
    var r := es[i := Entry(k, v)];
    assert Keys(r) == Keys(es);
    match IndexOf(es, k')
    case None =>
    case Some(m) => IndexOfFirst(r, m, k');
  }

  lemma IndexOfAppend<T>(es: seq<Entry<T>>, e: Entry<T>, k': string)
    requires e.key != k'
    ensures IndexOf(es + [e], k') == IndexOf(es, k')
  {
    var r := es + [e];
    assert Keys(r) == Keys(es) + [e.key];
    match IndexOf(es, k')
    case None =>
    case Some(m) => IndexOfFirst(r, m, k');
  }

  lemma KeysAppend<T>(a: seq<Entry<T>>, b: seq<Entry<T>>)
    ensures Keys(a + b) == Keys(a) + Keys(b)
  {
  }

  /** Assigning a key the hash does not have appends it. */
  lemma PutNew<T>(es: seq<Entry<T>>, k: string, v: T)
    requires k !in Keys(es)
    ensures Put(es, k, v) == es + [Entry(k, v)]
  {
  }

  /** In a hash without repeated keys, every entry is what its key finds. */
  lemma LookupUnique<T>(es: seq<Entry<T>>, i: nat)
    requires UniqueKeys(es) && i < |es|
    ensures Lookup(es, es[i].key) == Some(es[i].val)
  {
    IndexOfFirst(es, i, es[i].key);
  }

  /** `h[k]` finds the first entry with key `k`. */
  lemma GetFirst(es: seq<Entry<Value>>, i: nat)
    requires i < |es|
    requires forall j :: 0 <= j < i ==> es[j].key != es[i].key
    ensures Get(es, es[i].key) == es[i].val
  {
    IndexOfFirst(es, i, es[i].key);
  }

  // ---------------------------------------------------------------------
  // Sizes, for termination of the recursive passes over documents

  function Size(v: Value): (n: nat)
    ensures n >= 1
  {
    match v
    case Arr(items) => 1 + ItemsSize(items)
    case Obj(es) => 1 + EntriesSize(es)
    case _ => 1
  }

  function ItemsSize(items: seq<Value>): nat {
    if items == [] then 0 else Size(items[0]) + ItemsSize(items[1..])
  }

  function EntriesSize(es: seq<Entry<Value>>): nat {
    if es == [] then 0 else 1 + Size(es[0].val) + EntriesSize(es[1..])
  }

  lemma {:induction false} EntrySizeBound(es: seq<Entry<Value>>, i: nat)
    requires i < |es|
    ensures Size(es[i].val) < EntriesSize(es)
  {
    if i > 0 {
      EntrySizeBound(es[1..], i - 1);
    }
  }

  lemma {:induction false} ItemSizeBound(items: seq<Value>, i: nat)
    requires i < |items|
    ensures Size(items[i]) <= ItemsSize(items)
  {
    if i > 0 {
      ItemSizeBound(items[1..], i - 1);
    }
  }

  lemma {:induction false} GetSizeBound(es: seq<Entry<Value>>, k: string)
    ensures Size(Get(es, k)) <= 1 + EntriesSize(es)
  {
    match IndexOf(es, k)
    case None =>
    case Some(i) => EntrySizeBound(es, i);
  }

  lemma {:induction false} DeleteSize(es: seq<Entry<Value>>, k: string)
    ensures EntriesSize(Delete(es, k)) <= EntriesSize(es)
  {
    if es != [] {
      DeleteSize(es[1..], k);
      if es[0].key != k {
        assert ([es[0]] + Delete(es[1..], k))[1..] == Delete(es[1..], k);
      }
    }
  }

  // ---------------------------------------------------------------------
  // Ruby's to_s on scalars, as used by string interpolation and split

  function DigitChar(d: nat): char
    requires d < 10
  {
    "0123456789"[d]
  }

  function NatToDecimal(n: nat): (s: string)
    ensures |s| >= 1
    ensures forall i :: 0 <= i < |s| ==> '0' <= s[i] <= '9'
    decreases n
  {
    if n < 10 then [DigitChar(n)] else NatToDecimal(n / 10) + [DigitChar(n % 10)]
  }

  /** What `to_s` (and so `"#{v}"`) gives for a document value. */
  function ToS(v: Value): string {
    match v
    case Str(s) => s
    case Num(n) => if n < 0 then "-" + NatToDecimal(-n) else NatToDecimal(n)
    case Bool(b) => if b then "true" else "false"
    case Null => ""
    case Date(iso) => iso
    case Arr(_) => ""   // Ruby prints the inspect form; not modelled
    case Obj(_) => ""   // likewise
  }

  /** Every hash in the document, at any depth, has distinct keys (as any
      document loaded by Ruby does). */
  predicate WellFormed(v: Value)
    decreases Size(v), 1
  {
    match v
    case Obj(es) => UniqueKeys(es) && WellFormedEntries(es)
    case Arr(items) => WellFormedItems(items)
    case _ => true
  }

  predicate WellFormedEntries(es: seq<Entry<Value>>)
    decreases EntriesSize(es), 2
  {
    es != [] ==> WellFormed(es[0].val) && WellFormedEntries(es[1..])
  }

  predicate WellFormedItems(items: seq<Value>)
    decreases ItemsSize(items), 2
  {
    items != [] ==> WellFormed(items[0]) && WellFormedItems(items[1..])
  }

  lemma {:induction false} WellFormedEntry(es: seq<Entry<Value>>, i: nat)
    requires WellFormedEntries(es) && i < |es|
    ensures WellFormed(es[i].val)
    decreases i
  {
    if i > 0 {
      WellFormedEntry(es[1..], i - 1);
    }
  }

  lemma {:induction false} WellFormedItem(items: seq<Value>, i: nat)
    requires WellFormedItems(items) && i < |items|
    ensures WellFormed(items[i])
    decreases i
  {
    if i > 0 {
      WellFormedItem(items[1..], i - 1);
    }
  }

  /** A hash with the same keys as a hash with distinct keys finds each of
      them at the same position. */
  lemma GetSameKeys(r: seq<Entry<Value>>, es: seq<Entry<Value>>, i: nat)
    requires UniqueKeys(es) && Keys(r) == Keys(es) && i < |es|
    ensures es[i].key in Keys(r) && Get(r, es[i].key) == r[i].val
  {
    assert |r| == |Keys(r)|;
    assert Keys(r)[i] == r[i].key && Keys(es)[i] == es[i].key;
    assert UniqueKeys(r) by {
      forall a, b | 0 <= a < b < |r| ensures r[a].key != r[b].key {
        assert Keys(r)[a] == es[a].key && Keys(r)[b] == es[b].key;
      }
    }
    LookupUnique(r, i);
  }

  /** Every value held anywhere in a well-formed hash is well formed. */
  lemma WellFormedMember(es: seq<Entry<Value>>, e: Entry<Value>)
    requires WellFormedEntries(es) && e in es
    ensures WellFormed(e.val)
  {
    var j :| 0 <= j < |es| && es[j] == e;
    WellFormedEntry(es, j);
  }
}
