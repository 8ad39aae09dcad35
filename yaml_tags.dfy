/** The short-form YAML tags of the `regentanz` domain (`!GetAtt`, `!Ref`,
    `!ResolveRef`, `!Sub`, ...).  Each tag handler turns the tagged value
    into a hash with exactly one key, the long form CloudFormation (or the
    reference expander) reads. */
module YamlTags {
  import opened Values
  import opened LogicalNames
  import opened TemplateCompiler

  datatype Tag =
    | GetAtt
    | Ref
    | ResolveRef
    | FindInMap
    | GetAZs
    | ImportValue
    | Join
    | Select
    | Split
    | Sub

  /** The tag as written after `!` in a YAML document. */
  function TagName(t: Tag): string {
    match t
    case GetAtt => "GetAtt"
    case Ref => "Ref"
    case ResolveRef => "ResolveRef"
    case FindInMap => "FindInMap"
    case GetAZs => "GetAZs"
    case ImportValue => "ImportValue"
    case Join => "Join"
    case Select => "Select"
    case Split => "Split"
    case Sub => "Sub"
  }

  /** `Ref` and `ResolveRef` keep their own name; every other tag is an
      intrinsic function and is written `Fn::<name>`. */
  predicate IsIntrinsic(t: Tag) {
    !(t.Ref? || t.ResolveRef?)
  }

  /** The one key of the hash the handler for `t` builds. */
  function DirectiveKey(t: Tag): (k: string)
    ensures IsIntrinsic(t) ==> k == "Fn::" + TagName(t)
    ensures !IsIntrinsic(t) ==> k == TagName(t)
  {
    if IsIntrinsic(t) then "Fn::" + TagName(t) else TagName(t)
  }

  // ---------------------------------------------------------------------
  // Ruby's String#split with the one-character pattern "."

  /** Every piece between dots, empty ones included (at least one piece). */
  function Pieces(s: string): (ps: seq<string>)
    ensures |ps| >= 1
    decreases |s|
  {
    if s == [] then [""]
    else
      var ps := Pieces(s[..|s| - 1]);
      if s[|s| - 1] == '.' then ps + [""]
      else ps[..|ps| - 1] + [ps[|ps| - 1] + [s[|s| - 1]]]
  }

  /** Ruby drops the empty pieces at the end of a `split` result. */
  function DropTrailingEmpty(ps: seq<string>): (r: seq<string>)
    ensures r <= ps
    ensures r != [] ==> r[|r| - 1] != ""
    decreases |ps|
  {
    if ps == [] then []
    else if ps[|ps| - 1] == "" then DropTrailingEmpty(ps[..|ps| - 1])
    else ps
  }

  /** `s.split('.')`. */
  function SplitDots(s: string): seq<string> {
    DropTrailingEmpty(Pieces(s))
  }

  /** `segments.join('.')`, the inverse the tests rely on. */
  function JoinDots(ps: seq<string>): string
    decreases |ps|
  {
    if ps == [] then ""
    else if |ps| == 1 then ps[0]
    else JoinDots(ps[..|ps| - 1]) + "." + ps[|ps| - 1]
  }

  /** `s` without its trailing dots. */
  function TrimTrailingDots(s: string): (r: string)
    ensures r <= s
    ensures r == [] || r[|r| - 1] != '.'
    decreases |s|
  {
    if s != [] && s[|s| - 1] == '.' then TrimTrailingDots(s[..|s| - 1]) else s
  }

  lemma {:induction false} PiecesHaveNoDot(s: string)
    ensures forall i :: 0 <= i < |Pieces(s)| ==> '.' !in Pieces(s)[i]
    decreases |s|
  {
    if s != [] {
      PiecesHaveNoDot(s[..|s| - 1]);
    }
  }

  lemma {:induction false} JoinPieces(s: string)
    ensures JoinDots(Pieces(s)) == s
    decreases |s|
  {
    if s != [] {
      var init := s[..|s| - 1];
      var c := s[|s| - 1];
      var ps := Pieces(init);
      JoinPieces(init);
      assert s == init + [c];
      if c == '.' {
        assert (ps + [""])[..|ps|] == ps;
      } else {
        var qs := ps[..|ps| - 1] + [ps[|ps| - 1] + [c]];
        if |ps| > 1 {
          assert qs[..|qs| - 1] == ps[..|ps| - 1];
          assert JoinDots(ps) == JoinDots(ps[..|ps| - 1]) + "." + ps[|ps| - 1];
        }
      }
    }
  }

  lemma {:induction false} JoinSplit(s: string)
    ensures JoinDots(SplitDots(s)) == TrimTrailingDots(s)
    decreases |s|
  {
    if s != [] {
      var init := s[..|s| - 1];
      var ps := Pieces(init);
      if s[|s| - 1] == '.' {
        JoinSplit(init);
        assert (ps + [""])[..|ps|] == ps;
      } else {
        JoinPieces(s);
      }
    }
  }

  /** No segment of a split holds a dot. */
  lemma SplitHasNoDot(s: string)
    ensures forall i :: 0 <= i < |SplitDots(s)| ==> '.' !in SplitDots(s)[i]
  {
    PiecesHaveNoDot(s);
  }

  /** Joining the segments with dots gives the string back, unless it
      ends in a dot (Ruby's split forgets trailing empty segments). */
  lemma SplitRoundTrip(s: string)
    requires s == [] || s[|s| - 1] != '.'
    ensures JoinDots(SplitDots(s)) == s
  {
    JoinSplit(s);
  }

  /** A string ending in a dot does not come back: its trailing dots go. */
  lemma SplitLosesTrailingDots(s: string)
    requires s != [] && s[|s| - 1] == '.'
    ensures JoinDots(SplitDots(s)) != s
  {
    JoinSplit(s);
  }

  // ---------------------------------------------------------------------
  // The handlers

  /** What the handler registered for `t` returns for the tagged value. */
  function Directive(t: Tag, value: Value): (r: Value)
    ensures r.Obj? && |r.entries| == 1 && r.entries[0].key == DirectiveKey(t)
  {
    match t
    case GetAtt => Obj([Entry(DirectiveKey(t), Arr(Segments(SplitDots(ToS(value)))))])
    case _ => Obj([Entry(DirectiveKey(t), value)])
  }

  function Segments(ps: seq<string>): (r: seq<Value>)
    ensures |r| == |ps|
    ensures forall i :: 0 <= i < |ps| ==> r[i] == Str(ps[i])
  {
    seq(|ps|, i requires 0 <= i < |ps| => Str(ps[i]))
  }

  /** `!GetAtt Res.Attr`: `{"Fn::GetAtt" => segments}`, no segment holding a
      dot, and the segments joined with dots giving the value's text back
      when it does not end in a dot. */
  lemma GetAttDirective(value: Value)
    ensures var d := Directive(GetAtt, value);
      && d.entries[0].key == "Fn::GetAtt"
      && d.entries[0].val.Arr?
      && (forall i :: 0 <= i < |d.entries[0].val.items| ==>
            d.entries[0].val.items[i].Str? && '.' !in d.entries[0].val.items[i].s)
      && (ToS(value) == [] || ToS(value)[|ToS(value)| - 1] != '.' ==>
            JoinDots(SplitDots(ToS(value))) == ToS(value))
  {
    SplitHasNoDot(ToS(value));
    if ToS(value) == [] || ToS(value)[|ToS(value)| - 1] != '.' {
      SplitRoundTrip(ToS(value));
    }
  }

  /** Every other tag keeps the tagged value unchanged under its key:
      `Ref` and `ResolveRef` under their own name, the intrinsics under
      `Fn::<name>`. */
  lemma PassThroughDirective(t: Tag, value: Value)
    requires t != GetAtt
    ensures Directive(t, value) == Obj([Entry(DirectiveKey(t), value)])
    ensures Lookup(Directive(t, value).entries, DirectiveKey(t)) == Some(value)
  {
  }

  /** The key a handler writes determines the tag. */
  function TagOfKey(k: string): (r: Option<Tag>)
  {
    if k == "Fn::GetAtt" then Some(GetAtt)
    else if k == "Ref" then Some(Ref)
    else if k == "ResolveRef" then Some(ResolveRef)
    else if k == "Fn::FindInMap" then Some(FindInMap)
    else if k == "Fn::GetAZs" then Some(GetAZs)
    else if k == "Fn::ImportValue" then Some(ImportValue)
    else if k == "Fn::Join" then Some(Join)
    else if k == "Fn::Select" then Some(Select)
    else if k == "Fn::Split" then Some(Split)
    else if k == "Fn::Sub" then Some(Sub)
    else None
  }

  /** Reading the tag back from the directive's key gives the tag: no two
      handlers write the same key. */
  lemma DirectiveKeyRoundTrip(t: Tag)
    ensures TagOfKey(DirectiveKey(t)) == Some(t)
  {
    match t
    case GetAtt => assert DirectiveKey(t) == "Fn::GetAtt";
    case Ref =>
    case ResolveRef =>
    case FindInMap => assert DirectiveKey(t) == "Fn::FindInMap";
    case GetAZs => assert DirectiveKey(t) == "Fn::GetAZs";
    case ImportValue => assert DirectiveKey(t) == "Fn::ImportValue";
    case Join => assert DirectiveKey(t) == "Fn::Join";
    case Select => assert DirectiveKey(t) == "Fn::Select";
    case Split => assert DirectiveKey(t) == "Fn::Split";
    case Sub => assert DirectiveKey(t) == "Fn::Sub";
  }

  lemma DirectiveKeysDistinct(t: Tag, u: Tag)
    requires t != u
    ensures DirectiveKey(t) != DirectiveKey(u)
  {
    DirectiveKeyRoundTrip(t);
    DirectiveKeyRoundTrip(u);
  }

  /** `!ResolveRef path` is what the compiler turns into `!Ref`: the hash the
      handler builds expands to the `Ref` directive of the path's logical
      name. */
  lemma ResolveRefTagExpands(path: string)
    ensures ExpandRefs(Directive(ResolveRef, Str(path))) == Success(Directive(Ref, Str(LogicalName(path))))
  {
    var es := [Entry(ResolveRefKey, Str(path))];
    assert Directive(ResolveRef, Str(path)) == Obj(es);
    assert Get(es, ResolveRefKey) == Str(path);
    assert Delete(es, ResolveRefKey) == [];
    assert Put([], RefKey, Str(LogicalName(path))) == [Entry(RefKey, Str(LogicalName(path)))];
  }
}
