/** The structural comparison of the `compare` command: a freshly compiled
    template (`new`) against the one deployed (`old`).  The result is the
    new tree with `Diff(new, old)` pairs where the two disagree. */
module TreeDiff {
  import opened Values

  /** What `compare` returns: a value passed through (`Same`), a hash or
      array of comparison results, or a `Diff` pair. */
  datatype Delta =
    | Same(v: Value)
    | Fields(entries: seq<Entry<Delta>>)
    | Items(items: seq<Delta>)
    | Diff(newValue: Value, oldValue: Value)

  /** The Ruby classes the comparison distinguishes; `true` and `false`
      are instances of two different classes. */
  datatype RubyClass = StringClass | IntegerClass | TrueClass | FalseClass | NilClass | DateClass | ArrayClass | HashClass

  function ClassOf(v: Value): RubyClass {
    match v
    case Str(_) => StringClass
    case Num(_) => IntegerClass
    case Bool(b) => if b then TrueClass else FalseClass
    case Null => NilClass
    case Date(_) => DateClass
    case Arr(_) => ArrayClass
    case Obj(_) => HashClass
  }

  /** A date in the new template is compared as its string form against
      a string in the old one. */
  function Coerce(n: Value, o: Value): (r: Value)
    ensures n.Date? && o.Str? ==> r == Str(n.iso)
    ensures !(n.Date? && o.Str?) ==> r == n
    ensures Size(r) == Size(n)
  {
    if n.Date? && o.Str? then Str(n.iso) else n
  }

  // ---------------------------------------------------------------------
  // The comparison, as a function

  function Compare(n: Value, o: Value): (d: Delta)
    decreases Size(n) + Size(o), 1
  {
    var n := Coerce(n, o);
    if ClassOf(n) != ClassOf(o) then Diff(n, o)
    else match n
      case Obj(nes) =>
        var oes := o.entries;
        Fields(FoldOld(oes, nes, FoldNew(nes, oes, [])))
      case Arr(ns) =>
        if |ns| != |o.items| then Diff(n, o) else Items(CompareItems(ns, o.items))
      case _ =>
        if n == o then Same(n) else Diff(n, o)
  }

  /** The first loop of the hash branch: every new key, in order, gets the
      comparison with the old value under that key (nil if missing). */
  function FoldNew(nes: seq<Entry<Value>>, oes: seq<Entry<Value>>, acc: seq<Entry<Delta>>): seq<Entry<Delta>>
    decreases EntriesSize(nes) + 1 + EntriesSize(oes), 2
  {
    if nes == [] then acc
    else
      GetSizeBound(oes, nes[0].key);
      FoldNew(nes[1..], oes, Put(acc, nes[0].key, Compare(nes[0].val, Get(oes, nes[0].key))))
  }

  /** The second loop: every old key the new hash lacks gets
      `compare(nil, old value)`. */
  function FoldOld(oes: seq<Entry<Value>>, nes: seq<Entry<Value>>, acc: seq<Entry<Delta>>): seq<Entry<Delta>>
    decreases EntriesSize(oes) + 1, 2
  {
    if oes == [] then acc
    else
      var acc' := if oes[0].key in Keys(nes) then acc else Put(acc, oes[0].key, Compare(Null, oes[0].val));
      FoldOld(oes[1..], nes, acc')
  }

  /** `new.zip(old).map { |l, r| compare(l, r) }` for arrays of one length. */
  function CompareItems(ns: seq<Value>, os: seq<Value>): (ds: seq<Delta>)
    requires |ns| == |os|
    ensures |ds| == |ns|
    decreases ItemsSize(ns) + ItemsSize(os), 2
  {
    if ns == [] then []
    else [Compare(ns[0], os[0])] + CompareItems(ns[1..], os[1..])
  }

  // ---------------------------------------------------------------------
  // The comparison, as the Ruby method runs it

  /** `compare`: the hash branch fills a fresh result hash in two loops,
      the array branch maps over the zipped elements. */
  method CompareTrees(n: Value, o: Value) returns (d: Delta)
    ensures d == Compare(n, o)
    decreases Size(n) + Size(o), 1
  {
    var newTemplate := n;
    if newTemplate.Date? && o.Str? {
      newTemplate := Str(newTemplate.iso);
    }
    if ClassOf(newTemplate) != ClassOf(o) {
      return Diff(newTemplate, o);
    }
    match newTemplate
    case Obj(nes) =>
      var result := CompareNewKeys(nes, o.entries);
      result := CompareOldKeys(o.entries, nes, result);
      return Fields(result);
    case Arr(ns) =>
      if |ns| != |o.items| {
        return Diff(newTemplate, o);
      }
      var ds := CompareZipped(ns, o.items);
      return Items(ds);
    case _ =>
      if newTemplate == o {
        return Same(newTemplate);
      } else {
        return Diff(newTemplate, o);
      }
  }

  /** The first loop of the hash branch, over the new keys. */
  method CompareNewKeys(nes: seq<Entry<Value>>, oes: seq<Entry<Value>>) returns (result: seq<Entry<Delta>>)
    ensures result == FoldNew(nes, oes, [])
    decreases Size(Obj(nes)) + Size(Obj(oes)), 0
  {
    result := [];
    var i := 0;
    while i < |nes|
      invariant 0 <= i <= |nes|
      invariant FoldNew(nes[i..], oes, result) == FoldNew(nes, oes, [])
    {
      NewKeySizeBound(nes, oes, i);
      var value := CompareTrees(nes[i].val, Get(oes, nes[i].key));
      FoldNewStep(nes, oes, result, i);
      result := Put(result, nes[i].key, value);
      i := i + 1;
    }
  }

  /** The second loop of the hash branch, over the old keys the new hash
      lacks. */
  method CompareOldKeys(oes: seq<Entry<Value>>, nes: seq<Entry<Value>>, acc: seq<Entry<Delta>>)
    returns (result: seq<Entry<Delta>>)
    ensures result == FoldOld(oes, nes, acc)
    decreases Size(Obj(nes)) + Size(Obj(oes)), 0
  {
    result := acc;
    var j := 0;
    while j < |oes|
      invariant 0 <= j <= |oes|
      invariant FoldOld(oes[j..], nes, result) == FoldOld(oes, nes, acc)
    {
      FoldOldStep(oes, nes, result, j);
      if oes[j].key !in Keys(nes) {
        EntrySizeBound(oes, j);
        var value := CompareTrees(Null, oes[j].val);
        result := Put(result, oes[j].key, value);
      }
      j := j + 1;
    }
  }

  lemma NewKeySizeBound(nes: seq<Entry<Value>>, oes: seq<Entry<Value>>, i: nat)
    requires i < |nes|
    ensures Size(nes[i].val) + Size(Get(oes, nes[i].key)) < Size(Obj(nes)) + Size(Obj(oes))
  {
    EntrySizeBound(nes, i);
    GetSizeBound(oes, nes[i].key);
  }

  lemma FoldNewStep(nes: seq<Entry<Value>>, oes: seq<Entry<Value>>, acc: seq<Entry<Delta>>, i: nat)
    requires i < |nes|
    ensures FoldNew(nes[i..], oes, acc)
         == FoldNew(nes[i + 1..], oes, Put(acc, nes[i].key, Compare(nes[i].val, Get(oes, nes[i].key))))
  {
    assert nes[i..][0] == nes[i] && nes[i..][1..] == nes[i + 1..];
  }

  lemma FoldOldStep(oes: seq<Entry<Value>>, nes: seq<Entry<Value>>, acc: seq<Entry<Delta>>, j: nat)
    requires j < |oes|
    ensures FoldOld(oes[j..], nes, acc)
         == FoldOld(oes[j + 1..], nes, if oes[j].key in Keys(nes) then acc else Put(acc, oes[j].key, Compare(Null, oes[j].val)))
  {
    assert oes[j..][0] == oes[j] && oes[j..][1..] == oes[j + 1..];
  }

  /** The array branch: the elements compared pairwise. */
  method CompareZipped(ns: seq<Value>, os: seq<Value>) returns (ds: seq<Delta>)
    requires |ns| == |os|
    ensures ds == CompareItems(ns, os)
    decreases Size(Arr(ns)) + Size(Arr(os)), 0
  {
    ds := [];
    var i := 0;
    while i < |ns|
      invariant 0 <= i <= |ns|
      invariant CompareItems(ns, os) == ds + CompareItems(ns[i..], os[i..])
    {
      ItemSizeBound(ns, i);
      ItemSizeBound(os, i);
      var value := CompareTrees(ns[i], os[i]);
      assert ns[i..][0] == ns[i] && ns[i..][1..] == ns[i + 1..];
      assert os[i..][0] == os[i] && os[i..][1..] == os[i + 1..];
      ds := ds + [value];
      i := i + 1;
    }
    assert ds + [] == ds;
  }

  // ---------------------------------------------------------------------
  // Reference layouts

  /** The result for the new keys: key i of the new hash with the
      comparison of its value against the old hash's value for that key. */
  function NewPart(nes: seq<Entry<Value>>, oes: seq<Entry<Value>>): (r: seq<Entry<Delta>>)
    ensures |r| == |nes|
  {
    seq(|nes|, i requires 0 <= i < |nes| => Entry(nes[i].key, Compare(nes[i].val, Get(oes, nes[i].key))))
  }

  /** The old entries whose key the new hash lacks, in old order. */
  function OldOnly(oes: seq<Entry<Value>>, nes: seq<Entry<Value>>): (r: seq<Entry<Value>>)
    ensures forall e :: e in r <==> e in oes && e.key !in Keys(nes)
    decreases |oes|
  {
    if oes == [] then []
    else if oes[0].key in Keys(nes) then OldOnly(oes[1..], nes)
    else [oes[0]] + OldOnly(oes[1..], nes)
  }

  /** The result for the old-only keys: each compared against nil. */
  function OldPart(oes: seq<Entry<Value>>, nes: seq<Entry<Value>>): (r: seq<Entry<Delta>>)
    ensures |r| == |OldOnly(oes, nes)|
  {
    AgainstNil(OldOnly(oes, nes))
  }

  /** Each entry's value compared against nil, under its key. */
  function AgainstNil(es: seq<Entry<Value>>): (r: seq<Entry<Delta>>)
    ensures |r| == |es|
  {
    seq(|es|, i requires 0 <= i < |es| => Entry(es[i].key, Compare(Null, es[i].val)))
  }

  lemma AgainstNilKeys(es: seq<Entry<Value>>)
    ensures Keys(AgainstNil(es)) == Keys(es)
  {
  }

  lemma AgainstNilCons(e: Entry<Value>, es: seq<Entry<Value>>)
    ensures AgainstNil([e] + es) == [Entry(e.key, Compare(Null, e.val))] + AgainstNil(es)
  {
    var tail := AgainstNil(es);
    forall i | 0 < i < |es| + 1 ensures AgainstNil([e] + es)[i] == tail[i - 1] {
      assert ([e] + es)[i] == es[i - 1];
    }
  }

  lemma NewPartCons(nes: seq<Entry<Value>>, oes: seq<Entry<Value>>)
    requires nes != []
    ensures NewPart(nes, oes) == [Entry(nes[0].key, Compare(nes[0].val, Get(oes, nes[0].key)))] + NewPart(nes[1..], oes)
  {
    var tail := NewPart(nes[1..], oes);
    forall i | 0 < i < |nes| ensures NewPart(nes, oes)[i] == tail[i - 1] {
      assert nes[1..][i - 1] == nes[i];
    }
  }

  lemma {:induction false} FoldNewAppends(nes: seq<Entry<Value>>, oes: seq<Entry<Value>>, acc: seq<Entry<Delta>>)
    requires UniqueKeys(nes)
    requires forall i :: 0 <= i < |nes| ==> nes[i].key !in Keys(acc)
    ensures FoldNew(nes, oes, acc) == acc + NewPart(nes, oes)
    decreases |nes|
  {
    if nes == [] {
      assert acc + [] == acc;
    } else {
      var k := nes[0].key;
      var c := Compare(nes[0].val, Get(oes, k));
      assert FoldNew(nes, oes, acc) == FoldNew(nes[1..], oes, Put(acc, k, c));
      PutNew(acc, k, c);
      FoldNewTail(nes, acc, c);
      FoldNewAppends(nes[1..], oes, acc + [Entry(k, c)]);
      NewPartCons(nes, oes);
      AppendAssoc(acc, [Entry(k, c)], NewPart(nes[1..], oes));
    }
  }

  /** The precondition of `FoldNewAppends` carries over to the rest of the
      new entries. */
  lemma FoldNewTail(nes: seq<Entry<Value>>, acc: seq<Entry<Delta>>, c: Delta)
    requires nes != [] && UniqueKeys(nes)
    requires forall i :: 0 <= i < |nes| ==> nes[i].key !in Keys(acc)
    ensures UniqueKeys(nes[1..])
    ensures forall i :: 0 <= i < |nes[1..]| ==> nes[1..][i].key !in Keys(acc + [Entry(nes[0].key, c)])
  {
    KeysAppend(acc, [Entry(nes[0].key, c)]);
    assert forall i :: 0 <= i < |nes[1..]| ==> nes[1..][i] == nes[i + 1];
  }

  /** The new part lists the new keys in order. */
  lemma NewPartKeys(nes: seq<Entry<Value>>, oes: seq<Entry<Value>>)
    ensures Keys(NewPart(nes, oes)) == Keys(nes)
  {
  }

  lemma {:induction false} OldOnlyUnique(oes: seq<Entry<Value>>, nes: seq<Entry<Value>>)
    requires UniqueKeys(oes)
    ensures UniqueKeys(OldOnly(oes, nes))
    decreases |oes|
  {
    if oes != [] {
      OldOnlyUnique(oes[1..], nes);
      var rest := OldOnly(oes[1..], nes);
      forall e | e in rest ensures e.key != oes[0].key {
        var j :| 0 <= j < |oes[1..]| && oes[1..][j] == e;
        assert oes[j + 1] == e;
      }
    }
  }

  lemma OldPartCons(oes: seq<Entry<Value>>, nes: seq<Entry<Value>>)
    requires oes != []
    ensures oes[0].key in Keys(nes) ==> OldPart(oes, nes) == OldPart(oes[1..], nes)
    ensures oes[0].key !in Keys(nes) ==>
      OldPart(oes, nes) == [Entry(oes[0].key, Compare(Null, oes[0].val))] + OldPart(oes[1..], nes)
  {
    if oes[0].key !in Keys(nes) {
      assert OldOnly(oes, nes) == [oes[0]] + OldOnly(oes[1..], nes);
      AgainstNilCons(oes[0], OldOnly(oes[1..], nes));
    }
  }

  lemma {:induction false} FoldOldAppends(oes: seq<Entry<Value>>, nes: seq<Entry<Value>>, acc: seq<Entry<Delta>>)
    requires UniqueKeys(oes)
    requires forall i :: 0 <= i < |oes| && oes[i].key !in Keys(nes) ==> oes[i].key !in Keys(acc)
    ensures FoldOld(oes, nes, acc) == acc + OldPart(oes, nes)
    decreases |oes|
  {
    if oes == [] {
      assert acc + [] == acc;
    } else {
      var k := oes[0].key;
      var acc' := if k in Keys(nes) then acc else Put(acc, k, Compare(Null, oes[0].val));
      assert FoldOld(oes, nes, acc) == FoldOld(oes[1..], nes, acc');
      FoldOldTail(oes, nes, acc);
      FoldOldAppends(oes[1..], nes, acc');
      OldPartCons(oes, nes);
      if k !in Keys(nes) {
        PutNew(acc, k, Compare(Null, oes[0].val));
        AppendAssoc(acc, [Entry(k, Compare(Null, oes[0].val))], OldPart(oes[1..], nes));
      }
    }
  }

  /** The precondition of `FoldOldAppends` carries over to the rest of the
      old entries. */
  lemma FoldOldTail(oes: seq<Entry<Value>>, nes: seq<Entry<Value>>, acc: seq<Entry<Delta>>)
    requires oes != [] && UniqueKeys(oes)
    requires forall i :: 0 <= i < |oes| && oes[i].key !in Keys(nes) ==> oes[i].key !in Keys(acc)
    ensures UniqueKeys(oes[1..])
    ensures var acc' := if oes[0].key in Keys(nes) then acc else Put(acc, oes[0].key, Compare(Null, oes[0].val));
      forall i :: 0 <= i < |oes[1..]| && oes[1..][i].key !in Keys(nes) ==> oes[1..][i].key !in Keys(acc')
  {
    assert forall i :: 0 <= i < |oes[1..]| ==> oes[1..][i] == oes[i + 1];
  }

  // ---------------------------------------------------------------------
  // Properties of compare

  /** Values of different classes give one `Diff` of the two. */
  lemma ClassMismatch(n: Value, o: Value)
    requires ClassOf(n) != ClassOf(o) && !(n.Date? && o.Str?)
    ensures Compare(n, o) == Diff(n, o)
  {
  }

  /** A new date against an old string is compared as a string: equal
      text gives that string, other text a `Diff` of the two strings. */
  lemma DateAgainstString(iso: string, s: string)
    ensures Compare(Date(iso), Str(s)) == if iso == s then Same(Str(iso)) else Diff(Str(iso), Str(s))
  {
  }

  /** Scalars of one class: the new value when equal, a `Diff` otherwise. */
  lemma ScalarCompare(n: Value, o: Value)
    requires ClassOf(n) == ClassOf(o) && !n.Arr? && !n.Obj?
    ensures Compare(n, o) == if n == o then Same(n) else Diff(n, o)
  {
  }

  /** Leaving a key out of the new template is always reported: nil
      against any non-nil value is a `Diff`. */
  lemma NilAgainstValue(v: Value)
    ensures v != Null ==> Compare(Null, v) == Diff(Null, v)
    ensures Compare(Null, Null) == Same(Null)
  {
  }

  lemma {:induction false} CompareItemsIndex(ns: seq<Value>, os: seq<Value>)
    requires |ns| == |os|
    ensures forall i :: 0 <= i < |ns| ==> CompareItems(ns, os)[i] == Compare(ns[i], os[i])
    decreases |ns|
  {
    if ns != [] {
      CompareItemsIndex(ns[1..], os[1..]);
      forall i | 0 < i < |ns| ensures CompareItems(ns, os)[i] == Compare(ns[i], os[i]) {
        assert ns[1..][i - 1] == ns[i] && os[1..][i - 1] == os[i];
      }
    }
  }

  /** Arrays of different lengths give one `Diff` of the whole arrays;
      arrays of one length are compared position by position. */
  lemma ArrayCompare(ns: seq<Value>, os: seq<Value>)
    ensures |ns| != |os| ==> Compare(Arr(ns), Arr(os)) == Diff(Arr(ns), Arr(os))
    ensures |ns| == |os| ==>
      && Compare(Arr(ns), Arr(os)).Items?
      && |Compare(Arr(ns), Arr(os)).items| == |ns|
      && forall i :: 0 <= i < |ns| ==> Compare(Arr(ns), Arr(os)).items[i] == Compare(ns[i], os[i])
  {
    if |ns| == |os| {
      CompareItemsIndex(ns, os);
    }
  }

  /** Hashes: the result lists the new keys in their order, each compared
      against the old value under that key (nil when the old hash lacks
      it), and then the old-only keys in their order, each compared
      against nil. */
  lemma HashLayout(nes: seq<Entry<Value>>, oes: seq<Entry<Value>>)
    requires UniqueKeys(nes) && UniqueKeys(oes)
    ensures Compare(Obj(nes), Obj(oes)) == Fields(NewPart(nes, oes) + OldPart(oes, nes))
    ensures Keys(Compare(Obj(nes), Obj(oes)).entries) == Keys(nes) + Keys(OldOnly(oes, nes))
  {
    FoldNewAppends(nes, oes, []);
    var acc := NewPart(nes, oes);
    assert [] + acc == acc;
    NewPartKeys(nes, oes);
    FoldOldAppends(oes, nes, acc);
    var rest := OldPart(oes, nes);
    KeysAppend(acc, rest);
    AgainstNilKeys(OldOnly(oes, nes));
  }

  // ---------------------------------------------------------------------
  // Comparing a template with itself

  /** A document seen as a comparison result that found nothing: hashes
      and arrays become `Fields` and `Items`, scalars `Same`. */
  function Lift(v: Value): (d: Delta)
    ensures v.Obj? <==> d.Fields?
    ensures v.Arr? <==> d.Items?
    ensures !v.Obj? && !v.Arr? ==> d == Same(v)
    decreases Size(v), 1
  {
    match v
    case Obj(es) => Fields(LiftEntries(es))
    case Arr(items) => Items(LiftItems(items))
    case _ => Same(v)
  }

  function LiftEntries(es: seq<Entry<Value>>): (r: seq<Entry<Delta>>)
    ensures |r| == |es|
    ensures forall i :: 0 <= i < |es| ==> r[i].key == es[i].key
    decreases EntriesSize(es), 2
  {
    if es == [] then [] else [Entry(es[0].key, Lift(es[0].val))] + LiftEntries(es[1..])
  }

  function LiftItems(items: seq<Value>): (r: seq<Delta>)
    ensures |r| == |items|
    decreases ItemsSize(items), 2
  {
    if items == [] then [] else [Lift(items[0])] + LiftItems(items[1..])
  }

  lemma {:induction false} LiftEntriesIndex(es: seq<Entry<Value>>, i: nat)
    requires i < |es|
    ensures LiftEntries(es)[i] == Entry(es[i].key, Lift(es[i].val))
    decreases i
  {
    if i > 0 {
      LiftEntriesIndex(es[1..], i - 1);
    }
  }

  lemma {:induction false} LiftItemsIndex(items: seq<Value>, i: nat)
    requires i < |items|
    ensures LiftItems(items)[i] == Lift(items[i])
    decreases i
  {
    if i > 0 {
      LiftItemsIndex(items[1..], i - 1);
    }
  }

  /** A comparison result holds no `Diff` anywhere. */
  predicate NoDiff(d: Delta) {
    match d
    case Same(_) => true
    case Fields(es) => forall e :: e in es ==> NoDiff(e.val)
    case Items(ds) => forall x :: x in ds ==> NoDiff(x)
    case Diff(_, _) => false
  }

  lemma {:induction false} LiftNoDiff(v: Value)
    ensures NoDiff(Lift(v))
    decreases Size(v)
  {
    match v
    case Obj(es) =>
      forall e | e in LiftEntries(es) ensures NoDiff(e.val) {
        var i :| 0 <= i < |es| && LiftEntries(es)[i] == e;
        LiftEntriesIndex(es, i);
        EntrySizeBound(es, i);
        LiftNoDiff(es[i].val);
      }
    case Arr(items) =>
      forall x | x in LiftItems(items) ensures NoDiff(x) {
        var i :| 0 <= i < |items| && LiftItems(items)[i] == x;
        LiftItemsIndex(items, i);
        ItemSizeBound(items, i);
        LiftNoDiff(items[i]);
      }
    case _ =>
  }

  lemma {:induction false} OldOnlyCovered(oes: seq<Entry<Value>>, nes: seq<Entry<Value>>)
    requires forall e :: e in oes ==> e.key in Keys(nes)
    ensures OldOnly(oes, nes) == []
    decreases |oes|
  {
    if oes != [] {
      assert oes[0] in oes;
      assert forall e :: e in oes[1..] ==> e in oes;
      OldOnlyCovered(oes[1..], nes);
    }
  }

  lemma OldOnlySelf(es: seq<Entry<Value>>)
    ensures OldOnly(es, es) == []
  {
    forall e | e in es ensures e.key in Keys(es) {
      var i :| 0 <= i < |es| && es[i] == e;
      assert Keys(es)[i] == e.key;
    }
    OldOnlyCovered(es, es);
  }

  /** Comparing a template with itself reports no difference: the result
      is the template itself, with no `Diff` in it. */
  lemma {:induction false} CompareSelf(v: Value)
    requires WellFormed(v)
    ensures Compare(v, v) == Lift(v)
    ensures NoDiff(Compare(v, v))
    decreases Size(v)
  {
    LiftNoDiff(v);
    match v
    case Obj(es) =>
      HashLayout(es, es);
      OldOnlySelf(es);
      var part := NewPart(es, es);
      forall i | 0 <= i < |es| ensures part[i] == LiftEntries(es)[i] {
        LookupUnique(es, i);
        EntrySizeBound(es, i);
        WellFormedEntry(es, i);
        CompareSelf(es[i].val);
        LiftEntriesIndex(es, i);
      }
      assert part + [] == part;
      assert part == LiftEntries(es);
    case Arr(items) =>
      ArrayCompare(items, items);
      var ds := Compare(v, v).items;
      forall i | 0 <= i < |items| ensures ds[i] == LiftItems(items)[i] {
        ItemSizeBound(items, i);
        WellFormedItem(items, i);
        CompareSelf(items[i]);
        LiftItemsIndex(items, i);
      }
      assert ds == LiftItems(items);
    case _ =>
  }
}
