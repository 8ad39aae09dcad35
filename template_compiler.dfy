/** The template compiler proper: the reference expander `expand_refs`,
    `compile_resources`, which names and expands every resource fragment,
    and `compile_template`, which assembles the CloudFormation document.

    `expand_refs` is modelled twice over.  `ExpandRefs` is the value it
    returns, computed from the tree as it stands when the call starts.
    `Residue` is what the tree it was given looks like afterwards: the
    Ruby code `delete`s the `ResolveRef` and `ResolveName` keys from the
    hashes it visits, so the input changes under the caller. */
module TemplateCompiler {
  import opened Values
  import opened LogicalNames

  const ResolveRefKey := "ResolveRef"
  const ResolveNameKey := "ResolveName"
  const RefKey := "Ref"

  /** `relative_path_to_name` called on something that is not a string
      fails in Ruby (`sub!` is undefined there); the model reports the
      offending reference. */
  datatype ExpandError = NotAPath(reference: Value)

  function NameOf(reference: Value): (r: Result<string, ExpandError>)
    ensures reference.Str? ==> r == Success(LogicalName(reference.s))
    ensures !reference.Str? ==> r == Failure(NotAPath(reference))
  {
    if reference.Str? then Success(LogicalName(reference.s)) else Failure(NotAPath(reference))
  }

  // ---------------------------------------------------------------------
  // expand_refs

  /** The value `expand_refs` returns.  A hash first loses `ResolveRef`;
      if its value was truthy the result is the rest of the hash with
      `Ref` set to the logical name, the other values left alone.
      Otherwise the hash loses `ResolveName`; if that value was truthy the
      result is the logical name itself.  Otherwise every value is
      expanded.  Arrays are expanded element by element, everything else
      is returned as is. */
  function ExpandRefs(v: Value): (r: Result<Value, ExpandError>)
    decreases Size(v), 1
  {
    match v
    case Obj(es) =>
      var reference := Get(es, ResolveRefKey);
      var rest := Delete(es, ResolveRefKey);
      if Truthy(reference) then
        var name :- NameOf(reference);
        Success(Obj(Put(rest, RefKey, Str(name))))
      else
        var reference' := Get(rest, ResolveNameKey);
        var rest' := Delete(rest, ResolveNameKey);
        if Truthy(reference') then
          var name :- NameOf(reference');
          Success(Str(name))
        else
          DeleteSize(es, ResolveRefKey);
          DeleteSize(rest, ResolveNameKey);
          var entries :- ExpandEntries(rest');
          Success(Obj(entries))
    case Arr(items) =>
      var items' :- ExpandItems(items);
      Success(Arr(items'))
    case _ => Success(v)
  }

  /** `resource.merge(resource) { |_, v, _| expand_refs(v) }`: the values
      in key order; the first failure ends the pass. */
  function ExpandEntries(es: seq<Entry<Value>>): (r: Result<seq<Entry<Value>>, ExpandError>)
    decreases EntriesSize(es), 2
  {
    if es == [] then Success([])
    else
      var w :- ExpandRefs(es[0].val);
      var ws :- ExpandEntries(es[1..]);
      Success([Entry(es[0].key, w)] + ws)
  }

  /** `resource.map { |v| expand_refs(v) }`. */
  function ExpandItems(items: seq<Value>): (r: Result<seq<Value>, ExpandError>)
    decreases ItemsSize(items), 2
  {
    if items == [] then Success([])
    else
      var w :- ExpandRefs(items[0]);
      var ws :- ExpandItems(items[1..]);
      Success([w] + ws)
  }

  /** The input tree after `expand_refs` has run on it: the directive keys
      are gone from every hash the pass reached.  Hashes that carried a
      truthy directive are not descended into; the children of the others
      are visited in order until the first failure. */
  function Residue(v: Value): (r: Value)
    decreases Size(v), 1
  {
    match v
    case Obj(es) =>
      var rest := Delete(es, ResolveRefKey);
      if Truthy(Get(es, ResolveRefKey)) then Obj(rest)
      else
        var rest' := Delete(rest, ResolveNameKey);
        if Truthy(Get(rest, ResolveNameKey)) then Obj(rest')
        else
          DeleteSize(es, ResolveRefKey);
          DeleteSize(rest, ResolveNameKey);
          Obj(ResidueEntries(rest'))
    case Arr(items) => Arr(ResidueItems(items))
    case _ => v
  }

  function ResidueEntries(es: seq<Entry<Value>>): (r: seq<Entry<Value>>)
    decreases EntriesSize(es), 2
  {
    if es == [] then []
    else if ExpandRefs(es[0].val).Failure? then [Entry(es[0].key, Residue(es[0].val))] + es[1..]
    else [Entry(es[0].key, Residue(es[0].val))] + ResidueEntries(es[1..])
  }

  function ResidueItems(items: seq<Value>): (r: seq<Value>)
    decreases ItemsSize(items), 2
  {
    if items == [] then []
    else if ExpandRefs(items[0]).Failure? then [Residue(items[0])] + items[1..]
    else [Residue(items[0])] + ResidueItems(items[1..])
  }

  /** No hash anywhere in the tree has a directive key. */
  predicate NoDirectives(v: Value)
    decreases Size(v), 1
  {
    match v
    case Obj(es) => ResolveRefKey !in Keys(es) && ResolveNameKey !in Keys(es) && NoDirectivesEntries(es)
    case Arr(items) => NoDirectivesItems(items)
    case _ => true
  }

  predicate NoDirectivesEntries(es: seq<Entry<Value>>)
    decreases EntriesSize(es), 2
  {
    es == [] || (NoDirectives(es[0].val) && NoDirectivesEntries(es[1..]))
  }

  predicate NoDirectivesItems(items: seq<Value>)
    decreases ItemsSize(items), 2
  {
    items == [] || (NoDirectives(items[0]) && NoDirectivesItems(items[1..]))
  }

  // ---------------------------------------------------------------------
  // Properties of expand_refs

  /** A hash with a truthy, string `ResolveRef`: `ResolveRef` is gone,
      `Ref` holds the logical name, in place if the hash had a `Ref` and
      appended otherwise, and every other key keeps its value unexpanded. */
  lemma ResolveRefLayout(es: seq<Entry<Value>>, p: string)
    requires Get(es, ResolveRefKey) == Str(p)
    ensures ExpandRefs(Obj(es)).Success?
    ensures var r := ExpandRefs(Obj(es)).value;
      && r.Obj?
      && (RefKey in Keys(es) ==> Keys(r.entries) == Keys(Delete(es, ResolveRefKey)))
      && (RefKey !in Keys(es) ==> Keys(r.entries) == Keys(Delete(es, ResolveRefKey)) + [RefKey])
      && ResolveRefKey !in Keys(r.entries)
      && Lookup(r.entries, RefKey) == Some(Str(LogicalName(p)))
      && (forall k :: k != RefKey && k != ResolveRefKey ==> Lookup(r.entries, k) == Lookup(es, k))
  {
    var rest := Delete(es, ResolveRefKey);
    var r := Put(rest, RefKey, Str(LogicalName(p)));
    assert ExpandRefs(Obj(es)) == Success(Obj(r));
    assert RefKey in Keys(rest) <==> RefKey in Keys(es) by {
      assert Lookup(rest, RefKey) == Lookup(es, RefKey);
    }
    assert ResolveRefKey !in Keys(r) by {
      assert Lookup(r, ResolveRefKey) == Lookup(rest, ResolveRefKey);
    }
  }

  /** A truthy `ResolveRef` that is not a string is an error. */
  lemma ResolveRefNotAPath(es: seq<Entry<Value>>)
    requires Truthy(Get(es, ResolveRefKey)) && !Get(es, ResolveRefKey).Str?
    ensures ExpandRefs(Obj(es)) == Failure(NotAPath(Get(es, ResolveRefKey)))
  {
  }

  /** Without a truthy `ResolveRef`, a hash with a truthy `ResolveName`
      becomes the bare logical name, or an error if the name is not a
      string; whatever else the hash held is dropped. */
  lemma ResolveNameReplaces(es: seq<Entry<Value>>)
    requires !Truthy(Get(es, ResolveRefKey)) && Truthy(Get(es, ResolveNameKey))
    ensures Get(es, ResolveNameKey).Str? ==> ExpandRefs(Obj(es)) == Success(Str(LogicalName(Get(es, ResolveNameKey).s)))
    ensures !Get(es, ResolveNameKey).Str? ==> ExpandRefs(Obj(es)) == Failure(NotAPath(Get(es, ResolveNameKey)))
  {
    var rest := Delete(es, ResolveRefKey);
    assert Lookup(rest, ResolveNameKey) == Lookup(es, ResolveNameKey);
    assert ExpandRefs(Obj(es)) == (var name :- NameOf(Get(rest, ResolveNameKey)); Success(Str(name)));
  }

  /** `ResolveRef` is looked at first: with both directives truthy the
      result is a `Ref` hash, never the bare name. */
  lemma ResolveRefFirst(es: seq<Entry<Value>>, p: string, q: string)
    requires Get(es, ResolveRefKey) == Str(p) && Get(es, ResolveNameKey) == Str(q)
    ensures ExpandRefs(Obj(es)).Success? && ExpandRefs(Obj(es)).value.Obj?
    ensures ResolveNameKey in Keys(ExpandRefs(Obj(es)).value.entries)
  {
    ResolveRefLayout(es, p);
    assert Lookup(es, ResolveNameKey).Some?;
  }

  /** The entries pass keeps the key sequence and expands every value; it
      succeeds exactly when every value expands. */
  lemma {:induction false} ExpandEntriesShape(es: seq<Entry<Value>>)
    ensures ExpandEntries(es).Success? <==> forall i :: 0 <= i < |es| ==> ExpandRefs(es[i].val).Success?
    ensures ExpandEntries(es).Success? ==>
      && |ExpandEntries(es).value| == |es|
      && forall i :: 0 <= i < |es| ==> ExpandEntries(es).value[i] == Entry(es[i].key, ExpandRefs(es[i].val).value)
    decreases |es|
  {
    if es != [] {
      ExpandEntriesShape(es[1..]);
      if ExpandRefs(es[0].val).Success? && ExpandEntries(es[1..]).Success? {
        var r := ExpandEntries(es).value;
        forall i | 0 <= i < |es|
          ensures r[i] == Entry(es[i].key, ExpandRefs(es[i].val).value)
        {
          if i > 0 {
            assert r[i] == ExpandEntries(es[1..]).value[i - 1];
            assert es[i] == es[1..][i - 1];
          }
        }
      } else if ExpandRefs(es[0].val).Success? {
        var j :| 0 <= j < |es[1..]| && !ExpandRefs(es[1..][j].val).Success?;
        assert es[1..][j] == es[j + 1];
      }
    }
  }

  /** Likewise for arrays: same length, element-wise expansion. */
  lemma {:induction false} ExpandItemsShape(items: seq<Value>)
    ensures ExpandItems(items).Success? <==> forall i :: 0 <= i < |items| ==> ExpandRefs(items[i]).Success?
    ensures ExpandItems(items).Success? ==>
      && |ExpandItems(items).value| == |items|
      && forall i :: 0 <= i < |items| ==> ExpandItems(items).value[i] == ExpandRefs(items[i]).value
    decreases |items|
  {
    if items != [] {
      ExpandItemsShape(items[1..]);
      if ExpandRefs(items[0]).Success? && ExpandItems(items[1..]).Success? {
        var r := ExpandItems(items).value;
        forall i | 0 <= i < |items|
          ensures r[i] == ExpandRefs(items[i]).value
        {
          if i > 0 {
            assert r[i] == ExpandItems(items[1..]).value[i - 1];
            assert items[i] == items[1..][i - 1];
          }
        }
      } else if ExpandRefs(items[0]).Success? {
        var j :| 0 <= j < |items[1..]| && !ExpandRefs(items[1..][j]).Success?;
        assert items[1..][j] == items[j + 1];
      }
    }
  }

  /** A hash with neither directive truthy keeps its keys (bar the
      directive keys themselves) in order, each value expanded. */
  lemma PlainHashShape(es: seq<Entry<Value>>)
    requires !Truthy(Get(es, ResolveRefKey)) && !Truthy(Get(es, ResolveNameKey))
    ensures var rest := Delete(Delete(es, ResolveRefKey), ResolveNameKey);
      && (ExpandRefs(Obj(es)).Success? <==> forall i :: 0 <= i < |rest| ==> ExpandRefs(rest[i].val).Success?)
      && (ExpandRefs(Obj(es)).Success? ==>
            && ExpandRefs(Obj(es)).value.Obj?
            && Keys(ExpandRefs(Obj(es)).value.entries) == Keys(rest)
            && forall i :: 0 <= i < |rest| ==> ExpandRefs(Obj(es)).value.entries[i].val == ExpandRefs(rest[i].val).value)
  {
    ExpandPlainHash(es);
    ExpandEntriesShape(Delete(Delete(es, ResolveRefKey), ResolveNameKey));
  }

  /** With neither directive truthy, a hash expands as its entries without
      the directive keys. */
  lemma ExpandPlainHash(es: seq<Entry<Value>>)
    requires !Truthy(Get(es, ResolveRefKey)) && !Truthy(Get(es, ResolveNameKey))
    ensures ExpandRefs(Obj(es))
         == (var entries :- ExpandEntries(Delete(Delete(es, ResolveRefKey), ResolveNameKey)); Success(Obj(entries)))
  {
    var rest := Delete(es, ResolveRefKey);
    assert Lookup(rest, ResolveNameKey) == Lookup(es, ResolveNameKey);
  }

  /** With neither directive truthy, the residue of a hash is the residue
      of its entries without the directive keys. */
  lemma ResiduePlainHash(es: seq<Entry<Value>>)
    requires !Truthy(Get(es, ResolveRefKey)) && !Truthy(Get(es, ResolveNameKey))
    ensures Residue(Obj(es)) == Obj(ResidueEntries(Delete(Delete(es, ResolveRefKey), ResolveNameKey)))
  {
    var rest := Delete(es, ResolveRefKey);
    assert Lookup(rest, ResolveNameKey) == Lookup(es, ResolveNameKey);
  }

  /** Arrays keep their length and are expanded element-wise. */
  lemma ArrayShape(items: seq<Value>)
    ensures ExpandRefs(Arr(items)).Success? <==> forall i :: 0 <= i < |items| ==> ExpandRefs(items[i]).Success?
    ensures ExpandRefs(Arr(items)).Success? ==>
      && ExpandRefs(Arr(items)).value.Arr?
      && |ExpandRefs(Arr(items)).value.items| == |items|
      && forall i :: 0 <= i < |items| ==> ExpandRefs(Arr(items)).value.items[i] == ExpandRefs(items[i]).value
  {
    ExpandItemsShape(items);
  }

  /** Scalars come back unchanged. */
  lemma ScalarUnchanged(v: Value)
    requires !v.Obj? && !v.Arr?
    ensures ExpandRefs(v) == Success(v)
    ensures Residue(v) == v
  {
  }

  /** A tree without directive keys expands to itself and is left as it
      was. */
  lemma {:induction false} NoDirectivesFixed(v: Value)
    requires NoDirectives(v)
    ensures ExpandRefs(v) == Success(v)
    ensures Residue(v) == v
    decreases Size(v), 1
  {
    match v
    case Obj(es) =>
      assert Delete(Delete(es, ResolveRefKey), ResolveNameKey) == es;
      NoDirectivesEntriesFixed(es);
    case Arr(items) =>
      NoDirectivesItemsFixed(items);
    case _ =>
  }

  lemma {:induction false} NoDirectivesEntriesFixed(es: seq<Entry<Value>>)
    requires NoDirectivesEntries(es)
    ensures ExpandEntries(es) == Success(es)
    ensures ResidueEntries(es) == es
    decreases EntriesSize(es), 2
  {
    if es != [] {
      NoDirectivesFixed(es[0].val);
      NoDirectivesEntriesFixed(es[1..]);
      assert es == [Entry(es[0].key, es[0].val)] + es[1..];
    }
  }

  lemma {:induction false} NoDirectivesItemsFixed(items: seq<Value>)
    requires NoDirectivesItems(items)
    ensures ExpandItems(items) == Success(items)
    ensures ResidueItems(items) == items
    decreases ItemsSize(items), 2
  {
    if items != [] {
      NoDirectivesFixed(items[0]);
      NoDirectivesItemsFixed(items[1..]);
      assert items == [items[0]] + items[1..];
    }
  }

  /** What the caller's hash looks like after the pass, at its own level,
      when it carried a directive: `ResolveRef` is always deleted; after a
      truthy `ResolveRef` nothing else changed, after a truthy
      `ResolveName` only `ResolveName` went too. */
  lemma ResidueOfDirective(es: seq<Entry<Value>>)
    ensures Truthy(Get(es, ResolveRefKey)) ==> Residue(Obj(es)) == Obj(Delete(es, ResolveRefKey))
    ensures !Truthy(Get(es, ResolveRefKey)) && Truthy(Get(es, ResolveNameKey)) ==>
      Residue(Obj(es)) == Obj(Delete(Delete(es, ResolveRefKey), ResolveNameKey))
  {
    var rest := Delete(es, ResolveRefKey);
    assert Lookup(rest, ResolveNameKey) == Lookup(es, ResolveNameKey);
  }

  /** A hash without a truthy directive loses both directive keys and
      otherwise keeps its keys in order; each value becomes that value's
      own residue (when the whole pass succeeds). */
  lemma ResidueOfPlainHash(es: seq<Entry<Value>>)
    requires !Truthy(Get(es, ResolveRefKey)) && !Truthy(Get(es, ResolveNameKey))
    ensures var rest := Delete(Delete(es, ResolveRefKey), ResolveNameKey);
      && Residue(Obj(es)).Obj?
      && Keys(Residue(Obj(es)).entries) == Keys(rest)
      && (ExpandRefs(Obj(es)).Success? ==>
            forall i :: 0 <= i < |rest| ==> Residue(Obj(es)).entries[i].val == Residue(rest[i].val))
  {
    ResiduePlainHash(es);
    ResidueEntriesShape(Delete(Delete(es, ResolveRefKey), ResolveNameKey));
    PlainHashShape(es);
  }

  lemma ResidueEntriesKeys(es: seq<Entry<Value>>)
    ensures Keys(ResidueEntries(es)) == Keys(es)
  {
    ResidueEntriesKeyAt(es);
  }

  lemma {:induction false} ResidueEntriesKeyAt(es: seq<Entry<Value>>)
    ensures |ResidueEntries(es)| == |es|
    ensures forall i :: 0 <= i < |es| ==> ResidueEntries(es)[i].key == es[i].key
    decreases |es|
  {
    if es != [] {
      var e := Entry(es[0].key, Residue(es[0].val));
      var failed := ExpandRefs(es[0].val).Failure?;
      var tail := if failed then es[1..] else ResidueEntries(es[1..]);
      assert ResidueEntries(es) == [e] + tail;
      if !failed {
        ResidueEntriesKeyAt(es[1..]);
      }
      ConsKeys(e, tail, es);
    }
  }

  /** An entry in front of a tail whose keys follow those of `es[1..]`. */
  lemma ConsKeys(e: Entry<Value>, tail: seq<Entry<Value>>, es: seq<Entry<Value>>)
    requires es != [] && e.key == es[0].key && |tail| == |es| - 1
    requires forall j :: 0 <= j < |tail| ==> tail[j].key == es[1..][j].key
    ensures |[e] + tail| == |es|
    ensures forall i :: 0 <= i < |es| ==> ([e] + tail)[i].key == es[i].key
  {
    forall i | 0 < i < |es| ensures ([e] + tail)[i].key == es[i].key {
      assert ([e] + tail)[i] == tail[i - 1];
      assert es[1..][i - 1] == es[i];
    }
  }

  lemma {:induction false} ResidueEntriesValues(es: seq<Entry<Value>>)
    requires forall i :: 0 <= i < |es| ==> ExpandRefs(es[i].val).Success?
    ensures |ResidueEntries(es)| == |es|
    ensures forall i :: 0 <= i < |es| ==> ResidueEntries(es)[i].val == Residue(es[i].val)
    decreases |es|
  {
    if es != [] {
      var tail := ResidueEntries(es[1..]);
      assert forall i :: 0 <= i < |es[1..]| ==> es[1..][i] == es[i + 1];
      ResidueEntriesValues(es[1..]);
      var r := ResidueEntries(es);
      assert r == [Entry(es[0].key, Residue(es[0].val))] + tail;
      forall i | 0 < i < |es| ensures r[i].val == Residue(es[i].val) {
        assert r[i] == tail[i - 1];
      }
    }
  }

  /** The residue of an entries pass keeps the keys; when every value
      expands, every value is replaced by its residue. */
  lemma ResidueEntriesShape(es: seq<Entry<Value>>)
    ensures Keys(ResidueEntries(es)) == Keys(es)
    ensures (forall i :: 0 <= i < |es| ==> ExpandRefs(es[i].val).Success?) ==>
      forall i :: 0 <= i < |es| ==> ResidueEntries(es)[i].val == Residue(es[i].val)
  {
    ResidueEntriesKeys(es);
    if forall i :: 0 <= i < |es| ==> ExpandRefs(es[i].val).Success? {
      ResidueEntriesValues(es);
    }
  }

  // ---------------------------------------------------------------------
  // A subtree reached twice

  /** `expand_refs` does not copy deeply: `merge` builds a new hash whose
      values are the very objects that the hash it was called on holds
      (its own values for a `ResolveRef` hash, its children's expansions
      for a plain one).  `Aliased(v, f)` is what the result of
      `expand_refs(v)` looks like once the input tree `v` has since become
      `f`: each object the result shares with the input shows its state in
      `f`.  Aliased(v, Residue(v)) is the returned value itself
      (`AliasedUntouched`). */
  function Aliased(v: Value, f: Value): (r: Value)
    decreases Size(v), 1
  {
    match v
    case Obj(es) =>
      var rest := Delete(es, ResolveRefKey);
      if Truthy(Get(es, ResolveRefKey)) then
        match NameOf(Get(es, ResolveRefKey))
        case Success(name) => Obj(Put(Later(rest, f), RefKey, Str(name)))
        case Failure(_) => v
      else
        var rest' := Delete(rest, ResolveNameKey);
        if Truthy(Get(rest, ResolveNameKey)) then
          match NameOf(Get(rest, ResolveNameKey))
          case Success(name) => Str(name)
          case Failure(_) => v
        else
          DeleteSize(es, ResolveRefKey);
          DeleteSize(rest, ResolveNameKey);
          Obj(AliasedEntries(rest', f))
    case Arr(items) => Arr(AliasedItems(items, if f.Arr? then f.items else []))
    case _ => v
  }

  /** The later state of the value held under `k`: its state in the later
      hash `f`, or the value itself if `f` no longer holds it. */
  function LaterValue(f: Value, k: string, c: Value): (r: Value)
    ensures f.Obj? && k in Keys(f.entries) ==> Lookup(f.entries, k) == Some(r)
    ensures !(f.Obj? && k in Keys(f.entries)) ==> r == c
  {
    if f.Obj? && k in Keys(f.entries) then Get(f.entries, k) else c
  }

  /** Entries whose values are shared with the input, read at the later
      state `f`. */
  function Later(es: seq<Entry<Value>>, f: Value): (r: seq<Entry<Value>>)
    ensures Keys(r) == Keys(es)
    ensures forall i :: 0 <= i < |es| ==> r[i].val == LaterValue(f, es[i].key, es[i].val)
  {
    seq(|es|, i requires 0 <= i < |es| => Entry(es[i].key, LaterValue(f, es[i].key, es[i].val)))
  }

  function AliasedEntries(es: seq<Entry<Value>>, f: Value): (r: seq<Entry<Value>>)
    decreases EntriesSize(es), 2
  {
    if es == [] then []
    else [Entry(es[0].key, Aliased(es[0].val, LaterValue(f, es[0].key, es[0].val)))] + AliasedEntries(es[1..], f)
  }

  /** Array elements, each read at its later state `fs[i]` (the element
      itself where the later array is shorter). */
  function AliasedItems(items: seq<Value>, fs: seq<Value>): (r: seq<Value>)
    decreases ItemsSize(items), 2
  {
    if items == [] then []
    else
      var later := if fs != [] then fs[0] else items[0];
      [Aliased(items[0], later)] + AliasedItems(items[1..], if fs != [] then fs[1..] else [])
  }

  /** Read at the moment `expand_refs` returns, when the input has only
      lost its directive keys, the shared result is exactly the value
      returned: sharing shows only once the input changes again. */
  lemma {:induction false} AliasedUntouched(x: Value)
    requires WellFormed(x) && ExpandRefs(x).Success?
    ensures Aliased(x, Residue(x)) == ExpandRefs(x).value
    decreases Size(x), 1
  {
    match x
    case Obj(es) =>
      var rest := Delete(es, ResolveRefKey);
      var rest' := Delete(rest, ResolveNameKey);
      DeleteUnique(es, ResolveRefKey);
      if Truthy(Get(es, ResolveRefKey)) {
        LaterSelf(rest);
      } else if !Truthy(Get(rest, ResolveNameKey)) {
        assert Lookup(rest, ResolveNameKey) == Lookup(es, ResolveNameKey);
        PlainHashShape(es);
        ResiduePlainHash(es);
        DeleteUnique(rest, ResolveNameKey);
        ResidueEntriesLookup(rest');
        forall i | 0 <= i < |rest'| ensures WellFormed(rest'[i].val) {
          WellFormedMember(es, rest'[i]);
        }
        DeleteSize(es, ResolveRefKey);
        DeleteSize(rest, ResolveNameKey);
        AliasedEntriesUntouched(rest', ResidueEntries(rest'));
      }
    case Arr(items) =>
      AliasedItemsUntouched(items);
    case _ =>
  }

  lemma {:induction false} AliasedEntriesUntouched(es: seq<Entry<Value>>, fes: seq<Entry<Value>>)
    requires forall i :: 0 <= i < |es| ==> WellFormed(es[i].val)
    requires forall i :: 0 <= i < |es| ==> es[i].key in Keys(fes) && Get(fes, es[i].key) == Residue(es[i].val)
    requires ExpandEntries(es).Success?
    ensures AliasedEntries(es, Obj(fes)) == ExpandEntries(es).value
    decreases EntriesSize(es), 2
  {
    if es != [] {
      AliasedUntouched(es[0].val);
      assert forall i :: 0 <= i < |es[1..]| ==> es[1..][i] == es[i + 1];
      AliasedEntriesUntouched(es[1..], fes);
    }
  }

  lemma {:induction false} AliasedItemsUntouched(items: seq<Value>)
    requires WellFormedItems(items) && ExpandItems(items).Success?
    ensures AliasedItems(items, ResidueItems(items)) == ExpandItems(items).value
    decreases ItemsSize(items), 2
  {
    if items != [] {
      AliasedUntouched(items[0]);
      AliasedItemsUntouched(items[1..]);
      var fs := ResidueItems(items);
      assert fs == [Residue(items[0])] + ResidueItems(items[1..]);
      assert fs[1..] == ResidueItems(items[1..]);
    }
  }

  /** A hash read at its own state keeps its values. */
  lemma LaterSelf(es: seq<Entry<Value>>)
    requires UniqueKeys(es)
    ensures Later(es, Obj(es)) == es
  {
    var r := Later(es, Obj(es));
    assert |r| == |Keys(r)| == |Keys(es)| == |es|;
    forall i | 0 <= i < |es| ensures r[i] == es[i] {
      LookupUnique(es, i);
      assert Keys(es)[i] == es[i].key;
      assert Keys(r)[i] == r[i].key;
    }
  }

  /** After a successful pass, the residue of a hash holds under each key
      the residue of that key's value. */
  lemma ResidueEntriesLookup(es: seq<Entry<Value>>)
    requires UniqueKeys(es)
    requires forall i :: 0 <= i < |es| ==> ExpandRefs(es[i].val).Success?
    ensures forall i :: 0 <= i < |es| ==>
      es[i].key in Keys(ResidueEntries(es)) && Get(ResidueEntries(es), es[i].key) == Residue(es[i].val)
  {
    ResidueEntriesShape(es);
    forall i | 0 <= i < |es|
      ensures es[i].key in Keys(ResidueEntries(es)) && Get(ResidueEntries(es), es[i].key) == Residue(es[i].val)
    {
      GetSameKeys(ResidueEntries(es), es, i);
    }
  }

  /** `expand_refs` on an array whose two elements are one and the same
      hash, as a YAML alias (`&a` ... `*a`) produces.  The second visit
      sees the hash the first visit left behind, and the first result,
      which shares objects with that hash, is read after the second visit
      has changed them further. */
  function ExpandSharedPair(x: Value): (r: Result<Value, ExpandError>)
    ensures r.Success? <==> ExpandRefs(x).Success? && ExpandRefs(Residue(x)).Success?
    ensures r.Success? ==> r.value.Arr? && |r.value.items| == 2
    ensures r.Success? ==> r.value.items[1] == ExpandRefs(Residue(x)).value
  {
    var _ :- ExpandRefs(x);
    var second :- ExpandRefs(Residue(x));
    Success(Arr([Aliased(x, Residue(Residue(x))), second]))
  }

  /** A `ResolveRef` hash without its own `Ref`, reached twice, expands to
      two different values: the second copy has lost its reference. */
  lemma SharedResolveRefDiverges(es: seq<Entry<Value>>, p: string)
    requires Get(es, ResolveRefKey) == Str(p) && RefKey !in Keys(es)
    ensures ExpandSharedPair(Obj(es)).Success? ==>
      ExpandSharedPair(Obj(es)).value.items[0] != ExpandSharedPair(Obj(es)).value.items[1]
  {
    ResolveRefResidue(es, p);
    var rest := Delete(es, ResolveRefKey);
    var pair := ExpandSharedPair(Obj(es));
    if pair.Success? {
      var first := pair.value.items[0];
      assert first.Obj? && RefKey in Keys(first.entries) by {
        assert Lookup(first.entries, RefKey).Some?;
      }
      var second := ExpandRefs(Obj(rest));
      if second.value.Obj? {
        PlainOrNameShape(rest);
      }
    }
  }

  /** What the first visit leaves of a `ResolveRef` hash: the hash without
      `ResolveRef`, and without `Ref` when it had none. */
  lemma ResolveRefResidue(es: seq<Entry<Value>>, p: string)
    requires Get(es, ResolveRefKey) == Str(p)
    ensures Residue(Obj(es)) == Obj(Delete(es, ResolveRefKey))
    ensures ResolveRefKey !in Keys(Delete(es, ResolveRefKey))
    ensures RefKey !in Keys(es) ==> RefKey !in Keys(Delete(es, ResolveRefKey))
  {
    var rest := Delete(es, ResolveRefKey);
    assert Truthy(Get(es, ResolveRefKey));
    assert RefKey in Keys(rest) ==> Lookup(rest, RefKey) == Lookup(es, RefKey);
  }

  /** A hash without `ResolveRef` or `Ref` whose expansion is a hash has no
      `Ref` in the result either. */
  lemma PlainOrNameShape(es: seq<Entry<Value>>)
    requires ResolveRefKey !in Keys(es) && RefKey !in Keys(es)
    requires ExpandRefs(Obj(es)).Success? && ExpandRefs(Obj(es)).value.Obj?
    ensures RefKey !in Keys(ExpandRefs(Obj(es)).value.entries)
  {
    assert Delete(es, ResolveRefKey) == es;
    assert !Truthy(Get(es, ResolveNameKey));
    PlainHashShape(es);
    var rest := Delete(es, ResolveNameKey);
    assert RefKey !in Keys(rest) by {
      assert Lookup(rest, RefKey) == Lookup(es, RefKey);
    }
  }

  /** The smallest such hash: `{ResolveRef: a}` twice gives `{Ref: A}` and
      then `{}`. */
  lemma SharedResolveRefExample()
    ensures ExpandSharedPair(Obj([Entry(ResolveRefKey, Str("a"))]))
         == Success(Arr([Obj([Entry(RefKey, Str("A"))]), Obj([])]))
  {
    var x := Obj([Entry(ResolveRefKey, Str("a"))]);
    assert LogicalName("a") == "A";
    assert Get(x.entries, ResolveRefKey) == Str("a");
    assert Delete(x.entries, ResolveRefKey) == [];
    assert Put([], RefKey, Str("A")) == [Entry(RefKey, Str("A"))];
    assert ExpandRefs(x) == Success(Obj([Entry(RefKey, Str("A"))]));
    assert Residue(x) == Obj([]);
    assert ExpandRefs(Obj([])) == Success(Obj([]));
  }

  /** A `ResolveRef` hash whose kept value is itself a `ResolveName` hash:
      `{ResolveRef: a, M: {ResolveName: b}}` reached twice gives
      `{M: {}, Ref: A}` and `{M: B}`.  The first copy shows `M` emptied by
      the second visit, so it is not what the first visit returned. */
  lemma SharedAliasExample(x: Value)
    requires x == Obj([Entry(ResolveRefKey, Str("a")), Entry("M", Obj([Entry(ResolveNameKey, Str("b"))]))])
    ensures ExpandSharedPair(x)
         == Success(Arr([Obj([Entry("M", Obj([])), Entry(RefKey, Str("A"))]), Obj([Entry("M", Str("B"))])]))
    ensures ExpandSharedPair(x).value.items[0] != ExpandRefs(x).value
  {
    var inner := x.entries[1].val;
    AliasFirstVisit(x, inner);
    AliasSecondVisit([Entry("M", inner)], inner);
    AliasFirstCopy(x, inner, Obj([Entry("M", Obj([]))]));
  }

  lemma AliasFirstCopy(x: Value, inner: Value, f: Value)
    requires inner == Obj([Entry(ResolveNameKey, Str("b"))])
    requires x == Obj([Entry(ResolveRefKey, Str("a")), Entry("M", inner)])
    requires f == Obj([Entry("M", Obj([]))])
    ensures Aliased(x, f) == Obj([Entry("M", Obj([])), Entry(RefKey, Str("A"))])
  {
    AliasOuterEntries(x.entries, inner);
    AliasedResolveRef(x.entries, "a", f);
    NameOfA(Str("a"));
    AliasLater([Entry("M", inner)], f);
  }

  /** One step of `Aliased` on a `ResolveRef` hash. */
  lemma AliasedResolveRef(es: seq<Entry<Value>>, p: string, f: Value)
    requires Get(es, ResolveRefKey) == Str(p)
    ensures Aliased(Obj(es), f) == Obj(Put(Later(Delete(es, ResolveRefKey), f), RefKey, Str(LogicalName(p))))
  {
    assert Truthy(Get(es, ResolveRefKey));
  }

  lemma AliasLater(rest: seq<Entry<Value>>, f: Value)
    requires rest == [Entry("M", Obj([Entry(ResolveNameKey, Str("b"))]))]
    requires f == Obj([Entry("M", Obj([]))])
    ensures Put(Later(rest, f), RefKey, Str("A")) == [Entry("M", Obj([])), Entry(RefKey, Str("A"))]
  {
    assert Keys(f.entries) == ["M"];
    assert Get(f.entries, "M") == Obj([]);
    var l := Later(rest, f);
    assert l == [Entry("M", Obj([]))];
    PutNew(l, RefKey, Str("A"));
  }

  lemma AliasFirstVisit(x: Value, inner: Value)
    requires inner == Obj([Entry(ResolveNameKey, Str("b"))])
    requires x == Obj([Entry(ResolveRefKey, Str("a")), Entry("M", inner)])
    ensures ExpandRefs(x) == Success(Obj([Entry("M", inner), Entry(RefKey, Str("A"))]))
    ensures Residue(x) == Obj([Entry("M", inner)])
  {
    AliasOuterEntries(x.entries, inner);
    NameOfA(Str("a"));
  }

  lemma AliasOuterEntries(es: seq<Entry<Value>>, inner: Value)
    requires es == [Entry(ResolveRefKey, Str("a")), Entry("M", inner)]
    ensures Get(es, ResolveRefKey) == Str("a")
    ensures Delete(es, ResolveRefKey) == [Entry("M", inner)]
    ensures Put([Entry("M", inner)], RefKey, Str("A")) == [Entry("M", inner), Entry(RefKey, Str("A"))]
  {
    assert es[1..] == [Entry("M", inner)];
    assert Delete(es[1..][1..], ResolveRefKey) == [];
  }

  lemma NameOfA(reference: Value)
    requires reference == Str("a")
    ensures NameOf(reference) == Success("A")
  {
    assert LogicalName("a") == "A";
  }

  lemma AliasInner(inner: Value)
    requires inner == Obj([Entry(ResolveNameKey, Str("b"))])
    ensures ExpandRefs(inner) == Success(Str("B"))
    ensures Residue(inner) == Obj([])
  {
    assert LogicalName("b") == "B";
    assert Get(inner.entries, ResolveRefKey) == Null;
    assert Delete(inner.entries, ResolveRefKey) == inner.entries;
    assert Get(inner.entries, ResolveNameKey) == Str("b");
    assert Delete(inner.entries, ResolveNameKey) == [];
  }

  lemma AliasSecondVisit(rest: seq<Entry<Value>>, inner: Value)
    requires inner == Obj([Entry(ResolveNameKey, Str("b"))])
    requires rest == [Entry("M", inner)]
    ensures ExpandRefs(Obj(rest)) == Success(Obj([Entry("M", Str("B"))]))
    ensures Residue(Obj(rest)) == Obj([Entry("M", Obj([]))])
  {
    AliasInner(inner);
    assert Get(rest, ResolveRefKey) == Null && Get(rest, ResolveNameKey) == Null;
    assert Delete(rest, ResolveRefKey) == rest && Delete(rest, ResolveNameKey) == rest;
    ExpandPlainHash(rest);
    ResiduePlainHash(rest);
    assert rest[1..] == [];
    assert ExpandRefs(rest[0].val) == Success(Str("B"));
    assert ExpandEntries(rest[1..]) == Success([]);
    assert [Entry(rest[0].key, Str("B"))] + [] == [Entry("M", Str("B"))];
    assert ResidueEntries(rest) == [Entry("M", Obj([]))];
    assert ExpandEntries(rest) == Success([Entry("M", Str("B"))]);
  }

  /** When the second visit changes nothing further, the first copy is the
      ordinary expansion. */
  lemma SharedPairFirstCopy(x: Value)
    requires WellFormed(x) && ExpandSharedPair(x).Success?
    requires Residue(Residue(x)) == Residue(x)
    ensures ExpandSharedPair(x).value.items[0] == ExpandRefs(x).value
  {
    AliasedUntouched(x);
  }

  /** An expansion that leaves its input untouched gives both
      occurrences of a shared subtree the same value. */
  lemma SharedPairExpandsAlike(x: Value)
    ensures ExpandRefs(Arr([x, x])).Success? <==> ExpandRefs(x).Success?
    ensures ExpandRefs(Arr([x, x])).Success? ==>
      ExpandRefs(Arr([x, x])).value == Arr([ExpandRefs(x).value, ExpandRefs(x).value])
  {
    ArrayShape([x, x]);
    if ExpandRefs(Arr([x, x])).Success? {
      assert ExpandRefs(Arr([x, x])).value.items[1] == ExpandRefs(x).value;
    }
  }

  // ---------------------------------------------------------------------
  // The compiler's own test documents

  /** The `InstanceId` of the `extra` resource in the compiler tests. */
  lemma ExampleResolveRef(p: string)
    requires p == "core/ec2_instance"
    ensures ExpandRefs(Obj([Entry(ResolveRefKey, Str(p))])) == Success(Obj([Entry(RefKey, Str("CoreEc2Instance"))]))
  {
    ExampleCoreEc2Instance(p);
    var es := [Entry(ResolveRefKey, Str(p))];
    assert Get(es, ResolveRefKey) == Str(p);
    assert Delete(es, ResolveRefKey) == [];
    assert Put([], RefKey, Str(LogicalName(p))) == [Entry(RefKey, Str(LogicalName(p)))];
  }

  // ---------------------------------------------------------------------
  // compile_resources

  /** The logical name of every resource path, in input order. */
  function Names(resources: seq<Entry<Value>>): (ns: seq<string>)
    ensures |ns| == |resources|
    ensures forall i :: 0 <= i < |resources| ==> ns[i] == LogicalName(resources[i].key)
  {
    seq(|resources|, i requires 0 <= i < |resources| => LogicalName(resources[i].key))
  }

  /** `ks` followed by those of `ns` not seen before, first occurrence
      first: the key order a hash ends up with when `ns` are assigned into
      a hash with keys `ks`. */
  function AddNames(ks: seq<string>, ns: seq<string>): (r: seq<string>)
    decreases |ns|
  {
    if ns == [] then ks
    else AddNames(if ns[0] in ks then ks else ks + [ns[0]], ns[1..])
  }

  predicate NoDuplicates(ks: seq<string>) {
    forall i, j :: 0 <= i < j < |ks| ==> ks[i] != ks[j]
  }

  lemma AddNamesProperties(ks: seq<string>, ns: seq<string>)
    ensures forall k :: k in AddNames(ks, ns) <==> k in ks || k in ns
    ensures NoDuplicates(ks) ==> NoDuplicates(AddNames(ks, ns))
    ensures NoDuplicates(ks + ns) ==> AddNames(ks, ns) == ks + ns
  {
    AddNamesMembers(ks, ns);
    if NoDuplicates(ks) {
      AddNamesNoDuplicates(ks, ns);
    }
    if NoDuplicates(ks + ns) {
      AddNamesDistinct(ks, ns);
    }
  }

  lemma {:induction false} AddNamesMembers(ks: seq<string>, ns: seq<string>)
    ensures forall k :: k in AddNames(ks, ns) <==> k in ks || k in ns
    decreases |ns|
  {
    if ns != [] {
      var ks' := if ns[0] in ks then ks else ks + [ns[0]];
      AddNamesMembers(ks', ns[1..]);
      assert ns == [ns[0]] + ns[1..];
    }
  }

  lemma {:induction false} AddNamesNoDuplicates(ks: seq<string>, ns: seq<string>)
    requires NoDuplicates(ks)
    ensures NoDuplicates(AddNames(ks, ns))
    decreases |ns|
  {
    if ns != [] {
      var ks' := if ns[0] in ks then ks else ks + [ns[0]];
      forall i, j | 0 <= i < j < |ks'| ensures ks'[i] != ks'[j] {
        if j == |ks| {
          assert ks'[j] == ns[0] && ks'[i] == ks[i];
        } else {
          assert ks'[i] == ks[i] && ks'[j] == ks[j];
        }
      }
      AddNamesNoDuplicates(ks', ns[1..]);
    }
  }

  lemma {:induction false} AddNamesDistinct(ks: seq<string>, ns: seq<string>)
    requires NoDuplicates(ks + ns)
    ensures AddNames(ks, ns) == ks + ns
    decreases |ns|
  {
    if ns == [] {
      assert ks + ns == ks;
    } else {
      NoDuplicatesSplit(ks, ns);
      assert ks + [ns[0]] + ns[1..] == ks + ns;
      AddNamesDistinct(ks + [ns[0]], ns[1..]);
    }
  }

  /** The hash `compile_resources` fills, from an accumulated hash `acc`
      on: each path's logical name is assigned its expanded fragment, in
      order; the first expansion that fails ends the pass. */
  function CompileFrom(resources: seq<Entry<Value>>, acc: seq<Entry<Value>>): (r: Result<seq<Entry<Value>>, ExpandError>)
    decreases |resources|
  {
    if resources == [] then Success(acc)
    else
      var v :- ExpandRefs(resources[0].val);
      CompileFrom(resources[1..], Put(acc, LogicalName(resources[0].key), v))
  }

  function CompiledResources(resources: seq<Entry<Value>>): Result<seq<Entry<Value>>, ExpandError> {
    CompileFrom(resources, [])
  }

  /** `compile_resources`: the `each_with_object` loop, naming each path
      with `RelativePathToName` and expanding its fragment. */
  method CompileResources(resources: seq<Entry<Value>>) returns (r: Result<seq<Entry<Value>>, ExpandError>)
    ensures r == CompiledResources(resources)
  {
    var compiled: seq<Entry<Value>> := [];
    var i := 0;
    while i < |resources|
      invariant 0 <= i <= |resources|
      invariant CompileFrom(resources[i..], compiled) == CompiledResources(resources)
    {
      var name := RelativePathToName(resources[i].key);
      var fragment := ExpandRefs(resources[i].val);
      assert resources[i..][0] == resources[i] && resources[i..][1..] == resources[i + 1..];
      if fragment.Failure? {
        return Failure(fragment.error);
      }
      compiled := Put(compiled, name, fragment.value);
      i := i + 1;
    }
    return Success(compiled);
  }

  lemma {:induction false} CompileFromSucceeds(resources: seq<Entry<Value>>, acc: seq<Entry<Value>>)
    ensures CompileFrom(resources, acc).Success? <==>
      forall i :: 0 <= i < |resources| ==> ExpandRefs(resources[i].val).Success?
    decreases |resources|
  {
    if resources != [] {
      if ExpandRefs(resources[0].val).Success? {
        CompileFromSucceeds(resources[1..], Put(acc, LogicalName(resources[0].key), ExpandRefs(resources[0].val).value));
        if !CompileFrom(resources, acc).Success? {
          var j :| 0 <= j < |resources[1..]| && !ExpandRefs(resources[1..][j].val).Success?;
          assert resources[1..][j] == resources[j + 1];
        }
      }
    }
  }

  lemma {:induction false} CompileFromKeys(resources: seq<Entry<Value>>, acc: seq<Entry<Value>>)
    requires CompileFrom(resources, acc).Success?
    ensures Keys(CompileFrom(resources, acc).value) == AddNames(Keys(acc), Names(resources))
    decreases |resources|
  {
    if resources != [] {
      var n := LogicalName(resources[0].key);
      var acc' := Put(acc, n, ExpandRefs(resources[0].val).value);
      CompileFromKeys(resources[1..], acc');
      assert Names(resources[1..]) == Names(resources)[1..];
    }
  }

  /** A name that no later path produces keeps the value it has. */
  lemma {:induction false} CompileFromKeeps(resources: seq<Entry<Value>>, acc: seq<Entry<Value>>, k: string)
    requires CompileFrom(resources, acc).Success?
    requires forall j :: 0 <= j < |resources| ==> LogicalName(resources[j].key) != k
    ensures Lookup(CompileFrom(resources, acc).value, k) == Lookup(acc, k)
    decreases |resources|
  {
    if resources != [] {
      var acc' := Put(acc, LogicalName(resources[0].key), ExpandRefs(resources[0].val).value);
      assert forall j :: 0 <= j < |resources[1..]| ==> resources[1..][j] == resources[j + 1];
      CompileFromKeeps(resources[1..], acc', k);
    }
  }

  lemma {:induction false} CompileFromLastWins(resources: seq<Entry<Value>>, acc: seq<Entry<Value>>, i: nat)
    requires CompileFrom(resources, acc).Success? && i < |resources|
    requires forall j :: i < j < |resources| ==> LogicalName(resources[j].key) != LogicalName(resources[i].key)
    ensures ExpandRefs(resources[i].val).Success?
    ensures Lookup(CompileFrom(resources, acc).value, LogicalName(resources[i].key))
         == Some(ExpandRefs(resources[i].val).value)
    decreases |resources|
  {
    CompileFromSucceeds(resources, acc);
    var acc' := Put(acc, LogicalName(resources[0].key), ExpandRefs(resources[0].val).value);
    assert CompileFrom(resources, acc) == CompileFrom(resources[1..], acc');
    var tail := resources[1..];
    if i == 0 {
      forall j | 0 <= j < |tail| ensures LogicalName(tail[j].key) != LogicalName(resources[0].key) {
        assert tail[j] == resources[j + 1];
      }
      CompileFromKeeps(tail, acc', LogicalName(resources[0].key));
    } else {
      assert tail[i - 1] == resources[i];
      forall j | i - 1 < j < |tail| ensures LogicalName(tail[j].key) != LogicalName(tail[i - 1].key) {
        assert tail[j] == resources[j + 1];
      }
      CompileFromLastWins(tail, acc', i - 1);
    }
  }

  /** The hash `compile_resources` returns is all-or-nothing, holds each
      logical name once, in the order of first appearance, and nothing
      else. */
  lemma CompiledResourcesKeys(resources: seq<Entry<Value>>)
    ensures CompiledResources(resources).Success? <==>
      forall i :: 0 <= i < |resources| ==> ExpandRefs(resources[i].val).Success?
    ensures CompiledResources(resources).Success? ==>
      && Keys(CompiledResources(resources).value) == AddNames([], Names(resources))
      && UniqueKeys(CompiledResources(resources).value)
      && forall k :: k in Keys(CompiledResources(resources).value) <==> k in Names(resources)
  {
    CompileFromSucceeds(resources, []);
    AddNamesProperties([], Names(resources));
    if CompiledResources(resources).Success? {
      CompileFromKeys(resources, []);
      var r := CompiledResources(resources).value;
      assert Keys(r) == AddNames([], Names(resources));
      forall i, j | 0 <= i < j < |r| ensures r[i].key != r[j].key {
        assert Keys(r)[i] == r[i].key && Keys(r)[j] == r[j].key;
      }
    }
  }

  /** When two paths give the same logical name, the later fragment is the
      one the compiled hash keeps. */
  lemma CompiledResourcesLastWins(resources: seq<Entry<Value>>, i: nat)
    requires CompiledResources(resources).Success? && i < |resources|
    requires forall j :: i < j < |resources| ==> LogicalName(resources[j].key) != LogicalName(resources[i].key)
    ensures ExpandRefs(resources[i].val).Success?
    ensures Lookup(CompiledResources(resources).value, LogicalName(resources[i].key))
         == Some(ExpandRefs(resources[i].val).value)
  {
    CompileFromLastWins(resources, [], i);
  }

  /** With pairwise distinct logical names, entry i of the compiled hash
      is path i's name with path i's expanded fragment. */
  lemma CompiledResourcesDistinct(resources: seq<Entry<Value>>)
    requires NoDuplicates(Names(resources))
    requires CompiledResources(resources).Success?
    ensures |CompiledResources(resources).value| == |resources|
    ensures forall i :: 0 <= i < |resources| ==>
      ExpandRefs(resources[i].val).Success? &&
      CompiledResources(resources).value[i] == Entry(LogicalName(resources[i].key), ExpandRefs(resources[i].val).value)
  {
    var r := CompiledResources(resources).value;
    CompiledResourcesNames(resources);
    forall i | 0 <= i < |resources|
      ensures ExpandRefs(resources[i].val).Success? && r[i] == Entry(LogicalName(resources[i].key), ExpandRefs(resources[i].val).value)
    {
      CompiledResourceAt(resources, i);
    }
  }

  lemma CompiledResourcesNames(resources: seq<Entry<Value>>)
    requires NoDuplicates(Names(resources))
    requires CompiledResources(resources).Success?
    ensures Keys(CompiledResources(resources).value) == Names(resources)
  {
    CompileFromKeys(resources, []);
    AddNamesProperties([], Names(resources));
    assert Keys<Value>([]) == [];
    assert [] + Names(resources) == Names(resources);
  }

  lemma CompiledResourceAt(resources: seq<Entry<Value>>, i: nat)
    requires NoDuplicates(Names(resources))
    requires CompiledResources(resources).Success? && i < |resources|
    requires Keys(CompiledResources(resources).value) == Names(resources)
    ensures ExpandRefs(resources[i].val).Success?
    ensures CompiledResources(resources).value[i] == Entry(LogicalName(resources[i].key), ExpandRefs(resources[i].val).value)
  {
    var r := CompiledResources(resources).value;
    assert r[i].key == Keys(r)[i] == LogicalName(resources[i].key);
    CompiledResourcesKeys(resources);
    LookupUnique(r, i);
    CompiledResourcesLastWins(resources, i);
  }

  // ---------------------------------------------------------------------
  // compile_template

  const FormatVersionKey := "AWSTemplateFormatVersion"
  const FormatVersion := "2010-09-09"
  const ResourcesKey := "Resources"

  /** The optional top-level parts handed to `compile_template`; a missing
      option is `Null`, as `options[:x]` is nil for a missing key. */
  datatype Options = Options(parameters: Value, mappings: Value, conditions: Value, outputs: Value, metadata: Value)

  /** The optional sections in the order `compile_template` assigns them. */
  function Sections(o: Options): (xs: seq<Entry<Value>>)
    ensures Keys(xs) == SectionKeys()
  {
    [ Entry("Parameters", o.parameters), Entry("Mappings", o.mappings), Entry("Conditions", o.conditions)
    , Entry("Outputs", o.outputs), Entry("Metadata", o.metadata) ]
  }

  function SectionKeys(): seq<string> {
    ["Parameters", "Mappings", "Conditions", "Outputs", "Metadata"]
  }

  /** The entries whose value is truthy, in order. */
  function Present(xs: seq<Entry<Value>>): (r: seq<Entry<Value>>)
    ensures |r| <= |xs|
    decreases |xs|
  {
    if xs == [] then []
    else if Truthy(xs[0].val) then [xs[0]] + Present(xs[1..])
    else Present(xs[1..])
  }

  lemma {:induction false} PresentMembers(xs: seq<Entry<Value>>)
    ensures forall e :: e in Present(xs) <==> e in xs && Truthy(e.val)
    decreases |xs|
  {
    if xs != [] {
      PresentMembers(xs[1..]);
      assert xs == [xs[0]] + xs[1..];
    }
  }

  lemma {:induction false} PresentUnique(xs: seq<Entry<Value>>)
    requires NoDuplicates(Keys(xs))
    ensures UniqueKeys(Present(xs))
    decreases |xs|
  {
    if xs != [] {
      var rest := Present(xs[1..]);
      assert Keys(xs)[1..] == Keys(xs[1..]);
      PresentUnique(xs[1..]);
      PresentMembers(xs[1..]);
      NoDuplicatesSplit([], Keys(xs));
      forall e | e in rest ensures e.key != xs[0].key {
        var j :| 0 <= j < |xs[1..]| && xs[1..][j] == e;
        assert Keys(xs)[j + 1] == e.key;
      }
    }
  }

  /** The successive `template[key] = expand_refs(option) if option`
      assignments, from the partial template `acc` on. */
  function TemplateFrom(xs: seq<Entry<Value>>, acc: seq<Entry<Value>>): (r: Result<seq<Entry<Value>>, ExpandError>)
    decreases |xs|
  {
    if xs == [] then Success(acc)
    else if Truthy(xs[0].val) then
      var v :- ExpandRefs(xs[0].val);
      TemplateFrom(xs[1..], Put(acc, xs[0].key, v))
    else TemplateFrom(xs[1..], acc)
  }

  /** The template `compile_template` returns. */
  function Template(resources: seq<Entry<Value>>, o: Options): Result<Value, ExpandError> {
    var compiled :- CompiledResources(resources);
    var entries :- TemplateFrom(Sections(o), [Entry(FormatVersionKey, Str(FormatVersion)), Entry(ResourcesKey, Obj(compiled))]);
    Success(Obj(entries))
  }

  /** The assignments split after the first. */
  lemma TemplateFromCons(xs: seq<Entry<Value>>, acc: seq<Entry<Value>>)
    requires xs != []
    ensures TemplateFrom(xs, acc) == (var acc' :- TemplateFrom([xs[0]], acc); TemplateFrom(xs[1..], acc'))
  {
    assert [xs[0]][1..] == [];
  }

  /** The template before the optional sections: the format version and
      the compiled resources. */
  lemma TemplateStart(resources: seq<Entry<Value>>, o: Options, compiled: seq<Entry<Value>>)
    requires CompiledResources(resources) == Success(compiled)
    ensures Template(resources, o)
         == (var entries :- TemplateFrom(Sections(o), Put([Entry(FormatVersionKey, Str(FormatVersion))], ResourcesKey, Obj(compiled)));
             Success(Obj(entries)))
  {
    var start := [Entry(FormatVersionKey, Str(FormatVersion))];
    assert Keys(start) == [FormatVersionKey];
    PutNew(start, ResourcesKey, Obj(compiled));
    assert Put(start, ResourcesKey, Obj(compiled)) == [Entry(FormatVersionKey, Str(FormatVersion)), Entry(ResourcesKey, Obj(compiled))];
  }

  /** One line `template[key] = expand_refs(option) if option`. */
  method AssignSection(template: seq<Entry<Value>>, key: string, option: Value)
    returns (r: Result<seq<Entry<Value>>, ExpandError>)
    ensures r == TemplateFrom([Entry(key, option)], template)
  {
    r := Success(template);
    if Truthy(option) {
      var v :- ExpandRefs(option);
      r := Success(Put(template, key, v));
    }
    assert [Entry(key, option)][1..] == [];
  }

  /** `compile_template`, assignment by assignment. */
  method CompileTemplate(resources: seq<Entry<Value>>, options: Options) returns (r: Result<Value, ExpandError>)
    ensures r == Template(resources, options)
  {
    var template := [Entry(FormatVersionKey, Str(FormatVersion))];
    var compiled :- CompileResources(resources);
    assert Keys(template) == [FormatVersionKey];
    PutNew(template, ResourcesKey, Obj(compiled));
    template := Put(template, ResourcesKey, Obj(compiled));
    ghost var xs := Sections(options);
    ghost var target := TemplateFrom(xs, template);
    TemplateStart(resources, options, compiled);
    TemplateFromCons(xs, template);
    template :- AssignSection(template, "Parameters", options.parameters);
    assert TemplateFrom(xs[1..], template) == target;
    TemplateFromCons(xs[1..], template);
    template :- AssignSection(template, "Mappings", options.mappings);
    assert TemplateFrom(xs[2..], template) == target;
    TemplateFromCons(xs[2..], template);
    template :- AssignSection(template, "Conditions", options.conditions);
    assert TemplateFrom(xs[3..], template) == target;
    TemplateFromCons(xs[3..], template);
    template :- AssignSection(template, "Outputs", options.outputs);
    assert TemplateFrom(xs[4..], template) == target;
    TemplateFromCons(xs[4..], template);
    template :- AssignSection(template, "Metadata", options.metadata);
    assert TemplateFrom(xs[5..], template) == target;
    return Success(Obj(template));
  }

  lemma NoDuplicatesSplit(a: seq<string>, b: seq<string>)
    requires NoDuplicates(a + b) && b != []
    ensures b[0] !in a
    ensures NoDuplicates(a + b[1..])
  {
    var ab := a + b;
    forall j | 0 <= j < |a| ensures a[j] != b[0] {
      assert ab[j] == a[j] && ab[|a|] == b[0];
    }
    forall i, j | 0 <= i < j < |a + b[1..]| ensures (a + b[1..])[i] != (a + b[1..])[j] {
      var i' := if i < |a| then i else i + 1;
      var j' := if j < |a| then j else j + 1;
      assert (a + b[1..])[i] == ab[i'] && (a + b[1..])[j] == ab[j'];
    }
  }

  lemma TemplateFromPutNew(xs: seq<Entry<Value>>, acc: seq<Entry<Value>>, v: Value)
    requires xs != [] && Truthy(xs[0].val) && ExpandRefs(xs[0].val) == Success(v) && xs[0].key !in Keys(acc)
    ensures TemplateFrom(xs, acc) == TemplateFrom(xs[1..], acc + [Entry(xs[0].key, v)])
  {
    PutNew(acc, xs[0].key, v);
  }

  lemma ExpandPresentCons(xs: seq<Entry<Value>>, v: Value)
    requires xs != [] && Truthy(xs[0].val) && ExpandRefs(xs[0].val) == Success(v)
    ensures ExpandEntries(Present(xs)) == (var es :- ExpandEntries(Present(xs[1..])); Success([Entry(xs[0].key, v)] + es))
  {
    var p1 := Present(xs[1..]);
    assert Present(xs) == [xs[0]] + p1;
    assert ([xs[0]] + p1)[1..] == p1;
  }

  /** With no key assigned twice, the assignments append the present
      sections, expanded, in order; the first failing expansion is the
      result. */
  lemma {:induction false} TemplateFromAppends(xs: seq<Entry<Value>>, acc: seq<Entry<Value>>)
    requires NoDuplicates(Keys(acc) + Keys(xs))
    ensures TemplateFrom(xs, acc).Success? <==> ExpandEntries(Present(xs)).Success?
    ensures ExpandEntries(Present(xs)).Success? ==> TemplateFrom(xs, acc).value == acc + ExpandEntries(Present(xs)).value
    ensures ExpandEntries(Present(xs)).Failure? ==> TemplateFrom(xs, acc).error == ExpandEntries(Present(xs)).error
    decreases |xs|
  {
    if xs == [] {
      assert acc + [] == acc;
    } else {
      var k := xs[0].key;
      assert Keys(xs)[1..] == Keys(xs[1..]);
      NoDuplicatesSplit(Keys(acc), Keys(xs));
      if !Truthy(xs[0].val) {
        TemplateFromAppends(xs[1..], acc);
      } else if ExpandRefs(xs[0].val).Failure? {
        assert Present(xs) == [xs[0]] + Present(xs[1..]);
      } else {
        var v := ExpandRefs(xs[0].val).value;
        var acc' := acc + [Entry(k, v)];
        assert Keys(acc') + Keys(xs[1..]) == Keys(acc) + Keys(xs);
        TemplateFromAppends(xs[1..], acc');
        TemplateFromPutNew(xs, acc, v);
        ExpandPresentCons(xs, v);
        AppendsStep(TemplateFrom(xs, acc), TemplateFrom(xs[1..], acc'),
                    ExpandEntries(Present(xs)), ExpandEntries(Present(xs[1..])), acc, Entry(k, v));
      }
    }
  }

  /** The inductive step of `TemplateFromAppends`, on the results alone:
      `t` and `e` are the assignments and the expansion from a truthy
      section on, `t1` and `e1` the same from the next section on. */
  lemma AppendsStep(t: Result<seq<Entry<Value>>, ExpandError>, t1: Result<seq<Entry<Value>>, ExpandError>,
                    e: Result<seq<Entry<Value>>, ExpandError>, e1: Result<seq<Entry<Value>>, ExpandError>,
                    acc: seq<Entry<Value>>, x: Entry<Value>)
    requires t == t1
    requires e == (var es :- e1; Success([x] + es))
    requires t1.Success? <==> e1.Success?
    requires e1.Success? ==> t1.value == acc + [x] + e1.value
    requires e1.Failure? ==> t1.error == e1.error
    ensures t.Success? <==> e.Success?
    ensures e.Success? ==> t.value == acc + e.value
    ensures e.Failure? ==> t.error == e.error
  {
    if e1.Success? {
      assert acc + [x] + e1.value == acc + ([x] + e1.value);
    }
  }

  function Header(compiled: seq<Entry<Value>>): seq<Entry<Value>> {
    [Entry(FormatVersionKey, Str(FormatVersion)), Entry(ResourcesKey, Obj(compiled))]
  }

  lemma TemplateKeysDistinct(compiled: seq<Entry<Value>>, o: Options)
    ensures NoDuplicates(Keys(Header(compiled)) + Keys(Sections(o)))
  {
    var ks := Keys(Header(compiled)) + Keys(Sections(o));
    assert ks == ["AWSTemplateFormatVersion", "Resources", "Parameters", "Mappings", "Conditions", "Outputs", "Metadata"];
  }

  lemma TemplateAppends(resources: seq<Entry<Value>>, o: Options)
    ensures Template(resources, o).Success? <==>
      CompiledResources(resources).Success? && ExpandEntries(Present(Sections(o))).Success?
    ensures Template(resources, o).Success? ==>
      Template(resources, o).value == Obj(Header(CompiledResources(resources).value) + ExpandEntries(Present(Sections(o))).value)
  {
    if CompiledResources(resources).Success? {
      var compiled := CompiledResources(resources).value;
      TemplateKeysDistinct(compiled, o);
      TemplateFromAppends(Sections(o), Header(compiled));
    }
  }

  /** The header followed by the expanded present sections. */
  lemma HeaderThenSections(c: seq<Entry<Value>>, present: seq<Entry<Value>>, es: seq<Entry<Value>>)
    requires |es| == |present|
    requires forall i :: 0 <= i < |present| ==> ExpandRefs(present[i].val).Success?
    requires forall i :: 0 <= i < |present| ==> es[i] == Entry(present[i].key, ExpandRefs(present[i].val).value)
    ensures Keys(Header(c) + es) == [FormatVersionKey, ResourcesKey] + Keys(present)
    ensures (Header(c) + es)[0] == Entry(FormatVersionKey, Str(FormatVersion))
    ensures (Header(c) + es)[1] == Entry(ResourcesKey, Obj(c))
    ensures forall i :: 0 <= i < |present| ==> (Header(c) + es)[i + 2] == Entry(present[i].key, ExpandRefs(present[i].val).value)
  {
    var t := Header(c) + es;
    KeysAppend(Header(c), es);
    assert Keys(Header(c)) == [FormatVersionKey, ResourcesKey];
    assert Keys(es) == Keys(present);
  }

  /** The template has the format version, then `Resources`, then the
      options that are present, in the order Parameters, Mappings,
      Conditions, Outputs, Metadata; it is built exactly when the
      resources compile and every present option expands. */
  lemma TemplateShape(resources: seq<Entry<Value>>, o: Options)
    ensures var present := Present(Sections(o));
      Template(resources, o).Success? <==>
        && CompiledResources(resources).Success?
        && forall i :: 0 <= i < |present| ==> ExpandRefs(present[i].val).Success?
    ensures Template(resources, o).Success? ==>
      var t := Template(resources, o).value;
      var present := Present(Sections(o));
      && t.Obj?
      && Keys(t.entries) == [FormatVersionKey, ResourcesKey] + Keys(present)
      && t.entries[0] == Entry(FormatVersionKey, Str(FormatVersion))
      && t.entries[1] == Entry(ResourcesKey, Obj(CompiledResources(resources).value))
      && forall i :: 0 <= i < |present| ==> t.entries[i + 2] == Entry(present[i].key, ExpandRefs(present[i].val).value)
  {
    var present := Present(Sections(o));
    ExpandEntriesShape(present);
    TemplateAppends(resources, o);
    if Template(resources, o).Success? {
      HeaderThenSections(CompiledResources(resources).value, present, ExpandEntries(present).value);
    }
  }

  /** From accumulated hash `acc` on: a section key ends up with its
      expansion when its value is truthy, and keeps what `acc` had for it
      otherwise; keys of no section keep their value from `acc`. */
  lemma {:induction false} TemplateFromLookup(xs: seq<Entry<Value>>, acc: seq<Entry<Value>>)
    requires NoDuplicates(Keys(xs)) && TemplateFrom(xs, acc).Success?
    ensures forall k :: k !in Keys(xs) ==> Lookup(TemplateFrom(xs, acc).value, k) == Lookup(acc, k)
    ensures forall i :: 0 <= i < |xs| && Truthy(xs[i].val) ==>
      ExpandRefs(xs[i].val).Success? && Lookup(TemplateFrom(xs, acc).value, xs[i].key) == Some(ExpandRefs(xs[i].val).value)
    ensures forall i :: 0 <= i < |xs| && !Truthy(xs[i].val) ==>
      Lookup(TemplateFrom(xs, acc).value, xs[i].key) == Lookup(acc, xs[i].key)
    decreases |xs|
  {
    if xs != [] {
      var k := xs[0].key;
      assert Keys(xs)[1..] == Keys(xs[1..]);
      NoDuplicatesSplit([], Keys(xs));
      assert k !in Keys(xs[1..]);
      var acc' := if Truthy(xs[0].val) then Put(acc, k, ExpandRefs(xs[0].val).value) else acc;
      assert TemplateFrom(xs, acc) == TemplateFrom(xs[1..], acc');
      TemplateFromLookup(xs[1..], acc');
      var r := TemplateFrom(xs, acc).value;
      forall i | 0 <= i < |xs| && i > 0 ensures xs[i] == xs[1..][i - 1] && Keys(xs)[0] != Keys(xs)[i] {
        assert Keys(xs)[i] == Keys(xs[1..])[i - 1];
      }
    }
  }

  /** An option appears in the template exactly when it is truthy (a nil
      option is left out), and then as its expansion. */
  lemma TemplateSection(resources: seq<Entry<Value>>, o: Options, i: nat)
    requires Template(resources, o).Success? && i < 5
    ensures var s := Sections(o)[i];
      && (Truthy(s.val) ==> ExpandRefs(s.val).Success? && Lookup(Template(resources, o).value.entries, s.key) == Some(ExpandRefs(s.val).value))
      && (!Truthy(s.val) ==> s.key !in Keys(Template(resources, o).value.entries))
  {
    var xs := Sections(o);
    var c := CompiledResources(resources).value;
    assert Template(resources, o).value.entries == TemplateFrom(xs, Header(c)).value;
    assert NoDuplicates(Keys(xs));
    TemplateFromLookup(xs, Header(c));
    if !Truthy(xs[i].val) {
      assert Lookup(Header(c), xs[i].key) == None;
    }
  }
}
