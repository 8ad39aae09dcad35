/** The logical-name mangler of the template compiler: a resource file's
    path relative to the `resources` directory becomes the identifier under
    which the compiled template lists it.  The three steps are the three
    in-place edits of `relative_path_to_name`:
      1. `sub!(/\.([^.]+)$/, '')` removes the file extension,
      2. `gsub!('/', '_')` turns directory separators into underscores,
      3. `gsub!(/_.|^./) { |str| str[-1].upcase }` drops each underscore,
         capitalising the character after it, and capitalises the first
         character of every line.
    Ruby's `^` and `$` are line anchors and `.` does not match a line feed;
    the functions below keep that, so they agree with Ruby on every string.
    Upcasing is ASCII-only. */
module LogicalNames {
  import opened Values

  function Upcase(c: char): (u: char)
    ensures 'a' <= c <= 'z' ==> 'A' <= u <= 'Z' && u as int == c as int - 32
    ensures !('a' <= c <= 'z') ==> u == c
  {
    if 'a' <= c <= 'z' then (c as int - 32) as char else c
  }

  // ---------------------------------------------------------------------
  // Step 1: the extension, /\.([^.]+)$/, leftmost match, greedy

  /** `$` matches at the end of the string and before every line feed. */
  predicate AtLineEnd(s: string, j: nat)
    requires j <= |s|
  {
    j == |s| || s[j] == '\n'
  }

  /** `s[i..j]` is a match of /\.([^.]+)$/: a dot, at least one non-dot
      character, and a line end right after. */
  predicate IsExtension(s: string, i: nat, j: nat) {
    && i < |s| && j <= |s| && i + 2 <= j
    && s[i] == '.'
    && (forall m :: i < m < j ==> s[m] != '.')
    && AtLineEnd(s, j)
  }

  /** End of the run of non-dot characters that starts at `k`: how far the
      greedy `[^.]+` reaches. */
  function RunEnd(s: string, k: nat): (e: nat)
    requires k <= |s|
    ensures k <= e <= |s|
    ensures forall m :: k <= m < e ==> s[m] != '.'
    ensures e == |s| || s[e] == '.'
    decreases |s| - k
  {
    if k == |s| || s[k] == '.' then k else RunEnd(s, k + 1)
  }

  /** The largest line end in `lo..hi`: where backtracking from the greedy
      run first finds `$`. */
  function LastLineEnd(s: string, lo: nat, hi: nat): (r: Option<nat>)
    requires hi <= |s|
    ensures r.Some? ==> lo <= r.value <= hi && AtLineEnd(s, r.value)
    ensures r.Some? ==> forall j :: r.value < j <= hi ==> !AtLineEnd(s, j)
    ensures r.None? ==> forall j :: lo <= j <= hi ==> !AtLineEnd(s, j)
    decreases hi
  {
    if hi < lo then None
    else if AtLineEnd(s, hi) then Some(hi)
    else if hi == 0 then None
    else LastLineEnd(s, lo, hi - 1)
  }

  /** The end of the match that starts at `i`, if one does. */
  function ExtensionAt(s: string, i: nat): (r: Option<nat>)
    requires i < |s|
    ensures r.Some? ==> IsExtension(s, i, r.value)
    ensures r.Some? ==> forall j :: r.value < j ==> !IsExtension(s, i, j)
    ensures r.None? ==> forall j :: !IsExtension(s, i, j)
  {
    if s[i] != '.' then None
    else
      var e := RunEnd(s, i + 1);
      LastLineEnd(s, i + 2, e)
  }

  /** The leftmost match at or after `from`, as (start, end). */
  function FindExtension(s: string, from: nat): (r: Option<(nat, nat)>)
    ensures r.Some? ==> from <= r.value.0 && IsExtension(s, r.value.0, r.value.1)
    ensures r.Some? ==> forall j :: r.value.1 < j ==> !IsExtension(s, r.value.0, j)
    ensures r.Some? ==> forall i, j :: from <= i < r.value.0 ==> !IsExtension(s, i, j)
    ensures r.None? ==> forall i, j :: from <= i ==> !IsExtension(s, i, j)
    decreases |s| - from
  {
    if from >= |s| then None
    else match ExtensionAt(s, from)
      case Some(j) => Some((from, j))
      case None => FindExtension(s, from + 1)
  }

  function StripExtension(s: string): (r: string)
    ensures FindExtension(s, 0).None? ==> r == s
    ensures FindExtension(s, 0).Some? ==>
      var (i, j) := FindExtension(s, 0).value; r == s[..i] + s[j..]
  {
    match FindExtension(s, 0)
    case None => s
    case Some((i, j)) => s[..i] + s[j..]
  }

  // ---------------------------------------------------------------------
  // Step 2: directory separators

  function ReplaceSlashes(s: string): (r: string)
    ensures |r| == |s|
    ensures '/' !in r
    ensures forall i :: 0 <= i < |s| ==> r[i] == (if s[i] == '/' then '_' else s[i])
  {
    seq(|s|, i requires 0 <= i < |s| => if s[i] == '/' then '_' else s[i])
  }

  // ---------------------------------------------------------------------
  // Step 3: /_.|^./ replaced by the upcased last character of the match

  /** The scan of `gsub!(/_.|^./)` over `s`; `atLineStart` says whether `^`
      matches at the current position.  `_.` is tried before `^.`. */
  function Camelize(s: string, atLineStart: bool): (r: string)
    ensures |r| <= |s|
    decreases |s|
  {
    if |s| == 0 then ""
    else if s[0] == '_' && |s| >= 2 && s[1] != '\n' then [Upcase(s[1])] + Camelize(s[2..], false)
    else if atLineStart && s[0] != '\n' then [Upcase(s[0])] + Camelize(s[1..], false)
    else [s[0]] + Camelize(s[1..], s[0] == '\n')
  }

  /** Every character of the result is a capital letter or comes from the
      input. */
  lemma {:induction false} CamelizeChars(s: string, atLineStart: bool, c: char)
    requires c in Camelize(s, atLineStart) && !('A' <= c <= 'Z')
    ensures c in s
    decreases |s|
  {
    if s[0] == '_' && |s| >= 2 && s[1] != '\n' {
      if c != Upcase(s[1]) {
        CamelizeChars(s[2..], false, c);
      }
    } else if atLineStart && s[0] != '\n' {
      if c != Upcase(s[0]) {
        CamelizeChars(s[1..], false, c);
      }
    } else if c != s[0] {
      CamelizeChars(s[1..], s[0] == '\n', c);
    }
  }

  /** The logical name of a relative path. */
  function LogicalName(path: string): string {
    Camelize(ReplaceSlashes(StripExtension(path)), true)
  }

  // ---------------------------------------------------------------------
  // relative_path_to_name, edit by edit

  /** `name.sub!(/\.([^.]+)$/, '')`: find the leftmost match, then cut it. */
  method SubExtension(s: string) returns (name: string)
    ensures name == StripExtension(s)
  {
    var i := 0;
    var found: Option<(nat, nat)> := None;
    while i < |s| && found.None?
      invariant 0 <= i <= |s|
      invariant found.None? ==> FindExtension(s, 0) == FindExtension(s, i)
      invariant found.Some? ==> FindExtension(s, 0) == found
      decreases |s| - i
    {
      if s[i] == '.' {
        var e := i + 1;
        while e < |s| && s[e] != '.'
          invariant i + 1 <= e <= |s|
          invariant RunEnd(s, e) == RunEnd(s, i + 1)
          decreases |s| - e
        {
          e := e + 1;
        }
        var j := e;
        while j >= i + 2 && !(j == |s| || s[j] == '\n')
          invariant j <= e
          invariant LastLineEnd(s, i + 2, j) == LastLineEnd(s, i + 2, e)
          decreases j
        {
          j := j - 1;
        }
        if j >= i + 2 {
          found := Some((i, j));
        }
      }
      i := i + 1;
    }
    name := s;
    if found.Some? {
      name := s[..found.value.0] + s[found.value.1..];
    }
  }

  /** `name.gsub!('/', '_')`, one character at a time. */
  method GsubSlashes(s: string) returns (name: string)
    ensures name == ReplaceSlashes(s)
  {
    name := s;
    var k := 0;
    while k < |name|
      invariant 0 <= k <= |name| == |s|
      invariant name[..k] == ReplaceSlashes(s)[..k]
      invariant name[k..] == s[k..]
    {
      if name[k] == '/' {
        name := name[k := '_'];
      }
      k := k + 1;
    }
    assert name == name[..k];
  }

  /** `name.gsub!(/_.|^./) { |str| str[-1].upcase }`: scan left to right,
      tracking whether `^` matches at the current position. */
  method GsubCamel(s: string) returns (name: string)
    ensures name == Camelize(s, true)
  {
    name := "";
    var p := 0;
    var lineStart := true;
    while p < |s|
      invariant 0 <= p <= |s|
      invariant Camelize(s, true) == name + Camelize(s[p..], lineStart)
    {
      CamelizeAt(s, p, lineStart);
      if s[p] == '_' && p + 1 < |s| && s[p + 1] != '\n' {
        AppendAssoc(name, [Upcase(s[p + 1])], Camelize(s[p + 2..], false));
        name := name + [Upcase(s[p + 1])];
        p := p + 2;
        lineStart := false;
      } else if lineStart && s[p] != '\n' {
        AppendAssoc(name, [Upcase(s[p])], Camelize(s[p + 1..], false));
        name := name + [Upcase(s[p])];
        p := p + 1;
        lineStart := false;
      } else {
        AppendAssoc(name, [s[p]], Camelize(s[p + 1..], s[p] == '\n'));
        name := name + [s[p]];
        lineStart := s[p] == '\n';
        p := p + 1;
      }
    }
  }

  /** One step of the scan at position `p`. */
  lemma CamelizeAt(s: string, p: nat, atLineStart: bool)
    requires p < |s|
    ensures s[p] == '_' && p + 1 < |s| && s[p + 1] != '\n' ==>
      Camelize(s[p..], atLineStart) == [Upcase(s[p + 1])] + Camelize(s[p + 2..], false)
    ensures !(s[p] == '_' && p + 1 < |s| && s[p + 1] != '\n') && atLineStart && s[p] != '\n' ==>
      Camelize(s[p..], atLineStart) == [Upcase(s[p])] + Camelize(s[p + 1..], false)
    ensures !(s[p] == '_' && p + 1 < |s| && s[p + 1] != '\n') && !(atLineStart && s[p] != '\n') ==>
      Camelize(s[p..], atLineStart) == [s[p]] + Camelize(s[p + 1..], s[p] == '\n')
  {
    assert s[p..][1..] == s[p + 1..];
    if p + 1 < |s| {
      assert s[p..][2..] == s[p + 2..];
    }
  }

  /** relative_path_to_name: the three edits in order on a copy of the path. */
  method RelativePathToName(relativePath: string) returns (name: string)
    ensures name == LogicalName(relativePath)
  {
    name := SubExtension(relativePath);
    name := GsubSlashes(name);
    name := GsubCamel(name);
  }

  // ---------------------------------------------------------------------
  // Properties

  /** A logical name never holds a directory separator. */
  lemma LogicalNameHasNoSlash(path: string)
    ensures '/' !in LogicalName(path)
  {
    if '/' in LogicalName(path) {
      CamelizeChars(ReplaceSlashes(StripExtension(path)), true, '/');
    }
  }

  /** A logical name is never longer than the path it comes from. */
  lemma LogicalNameNoLonger(path: string)
    ensures |LogicalName(path)| <= |path|
  {
    var s := StripExtension(path);
    assert |s| <= |path|;
  }

  /** On a path without line breaks, only the text after the last dot is
      removed, and only when that text is not empty. */
  lemma StripSingleLine(s: string, d: nat)
    requires '\n' !in s
    requires d < |s| && s[d] == '.' && forall m :: d < m < |s| ==> s[m] != '.'
    ensures StripExtension(s) == if d + 1 < |s| then s[..d] else s
  {
    if d + 1 < |s| {
      assert IsExtension(s, d, |s|);
    }
  }

  /** A path without any dot keeps all its characters. */
  lemma NoDotNoStrip(s: string)
    requires '.' !in s
    ensures StripExtension(s) == s
  {
  }

  /** The scan of a concatenation splits at a boundary that no match can
      straddle: one right after a character that is neither an underscore
      nor a line feed. */
  lemma {:induction false} CamelizeConcat(a: string, b: string, atLineStart: bool)
    requires a != [] && a[|a| - 1] != '_' && a[|a| - 1] != '\n'
    ensures Camelize(a + b, atLineStart) == Camelize(a, atLineStart) + Camelize(b, false)
    decreases |a|, 1
  {
    if a[0] == '_' && |a| >= 2 && a[1] != '\n' {
      CamelizeConcatPair(a, b, atLineStart);
    } else {
      CamelizeConcatSingle(a, b, atLineStart);
    }
  }

  /** `CamelizeConcat` when the scan starts with a match of `_.`. */
  lemma {:induction false} CamelizeConcatPair(a: string, b: string, atLineStart: bool)
    requires a != [] && a[|a| - 1] != '_' && a[|a| - 1] != '\n'
    requires a[0] == '_' && |a| >= 2 && a[1] != '\n'
    ensures Camelize(a + b, atLineStart) == Camelize(a, atLineStart) + Camelize(b, false)
    decreases |a|, 0
  {
    var s := a + b;
    assert s[0] == a[0] && s[1] == a[1];
    if |a| == 2 {
      assert s[2..] == b;
    } else {
      assert s[2..] == a[2..] + b;
      CamelizeConcat(a[2..], b, false);
    }
  }

  /** `CamelizeConcat` when the scan starts with one character. */
  lemma {:induction false} CamelizeConcatSingle(a: string, b: string, atLineStart: bool)
    requires a != [] && a[|a| - 1] != '_' && a[|a| - 1] != '\n'
    requires !(a[0] == '_' && |a| >= 2 && a[1] != '\n')
    ensures Camelize(a + b, atLineStart) == Camelize(a, atLineStart) + Camelize(b, false)
    decreases |a|, 0
  {
    var s := a + b;
    var up := atLineStart && a[0] != '\n';
    var c := if up then Upcase(a[0]) else a[0];
    var next := if up then false else a[0] == '\n';
    assert s[0] == a[0];
    if |a| == 1 {
      assert s[1..] == b;
      assert Camelize(a, atLineStart) == [c];
    } else {
      assert s[1] == a[1];
      assert s[1..] == a[1..] + b;
      assert Camelize(a, atLineStart) == [c] + Camelize(a[1..], next);
      CamelizeConcat(a[1..], b, next);
      AppendAssoc([c], Camelize(a[1..], next), Camelize(b, false));
    }
    assert Camelize(s, atLineStart) == [c] + Camelize(s[1..], next);
  }

  /** Three boundaries of the kind `CamelizeConcat` allows. */
  lemma CamelizeFour(a: string, b: string, c: string, d: string, atLineStart: bool)
    requires a != [] && a[|a| - 1] != '_' && a[|a| - 1] != '\n'
    requires b != [] && b[|b| - 1] != '_' && b[|b| - 1] != '\n'
    requires c != [] && c[|c| - 1] != '_' && c[|c| - 1] != '\n'
    ensures Camelize(a + b + c + d, atLineStart)
         == Camelize(a, atLineStart) + Camelize(b, false) + Camelize(c, false) + Camelize(d, false)
  {
    CamelizeConcat(a, b, atLineStart);
    CamelizeConcat(a + b, c, atLineStart);
    CamelizeConcat(a + b + c, d, atLineStart);
  }

  // Examples: the resource names the compiler's own tests expect.  They
  // take the literal as a parameter: stated on a
  // literal directly, the recursive functions would be unfolded without
  // bound.

  /** The logical name the compiler tests expect for `core/ec2_instance`,
      with and without an extension. */
  lemma ExampleCoreEc2Instance(path: string)
    requires path == "core/ec2_instance.json" || path == "core/ec2_instance"
    ensures LogicalName(path) == "CoreEc2Instance"
  {
    StripCoreEc2Instance(path);
    CamelizeCoreEc2Instance("core", "_ec2", "_inst", "ance");
  }

  lemma StripCoreEc2Instance(path: string)
    requires path == "core/ec2_instance.json" || path == "core/ec2_instance"
    ensures ReplaceSlashes(StripExtension(path)) == "core" + "_ec2" + "_inst" + "ance"
  {
    if path == "core/ec2_instance.json" {
      StripCoreEc2InstanceJson(path);
    } else {
      NoDotNoStrip(path);
    }
    SlashesCoreEc2Instance(StripExtension(path));
  }

  lemma StripCoreEc2InstanceJson(path: string)
    requires path == "core/ec2_instance.json"
    ensures StripExtension(path) == "core/ec2_instance"
  {
    assert path[..17] == "core/ec2_instance";
    StripSingleLine(path, 17);
  }

  lemma SlashesCoreEc2Instance(stem: string)
    requires stem == "core/ec2_instance"
    ensures ReplaceSlashes(stem) == "core" + "_ec2" + "_inst" + "ance"
  {
    assert ReplaceSlashes(stem)[4] == '_';
  }

  /** `core_ec2_instance`, cut where no underscore ends a piece, camelizes
      piece by piece. */
  lemma CamelizeCoreEc2Instance(a: string, b: string, c: string, d: string)
    requires a == "core" && b == "_ec2" && c == "_inst" && d == "ance"
    ensures Camelize(a + b + c + d, true) == "CoreEc2Instance"
  {
    CamelizeFour(a, b, c, d, true);
    CamelizePiece(a, true, "Core");
    CamelizePiece(b, false, "Ec2");
    CamelizePiece(c, false, "Inst");
    CamelizePiece(d, false, "ance");
  }

  /** The four pieces of `core_ec2_instance`, each camelized on its own:
      at most the first character changes. */
  lemma CamelizePiece(s: string, atLineStart: bool, r: string)
    requires || (s == "core" && atLineStart && r == "Core")
             || (s == "_ec2" && !atLineStart && r == "Ec2")
             || (s == "_inst" && !atLineStart && r == "Inst")
             || (s == "ance" && !atLineStart && r == "ance")
    ensures Camelize(s, atLineStart) == r
  {
    if s == "core" {
      CamelizePlain(s[1..]);
      assert s[1..] == "ore";
    } else if s == "_ec2" {
      CamelizePlain(s[2..]);
      assert s[2..] == "c2";
    } else if s == "_inst" {
      CamelizePlain(s[2..]);
      assert s[2..] == "nst";
    } else {
      CamelizePlain(s);
    }
  }

  /** Away from a line start, text without underscores or line feeds is
      left as it is. */
  lemma {:induction false} CamelizePlain(s: string)
    requires '_' !in s && '\n' !in s
    ensures Camelize(s, false) == s
    decreases |s|
  {
    if s != [] {
      assert s[0] in s;
      assert forall c :: c in s[1..] ==> c in s;
      CamelizePlain(s[1..]);
    }
  }

  lemma ExampleExtensionless()
    ensures LogicalName("extra") == "Extra"
  {
    NoDotNoStrip("extra");
    assert ReplaceSlashes("extra") == "extra";
  }

  /** Two different paths can mangle to the same name, so one resource
      silently replaces the other. */
  lemma NamesCollide()
    ensures LogicalName("a_b.json") == LogicalName("a/b.yml") == "AB"
  {
    NameOfAB("a_b.json");
    NameOfAB("a/b.yml");
  }

  lemma NameOfAB(path: string)
    requires path == "a_b.json" || path == "a/b.yml"
    ensures ReplaceSlashes(StripExtension(path)) == "a_b"
  {
    StripSingleLine(path, 3);
    if path == "a_b.json" {
      assert path[..3] == "a_b";
      assert ReplaceSlashes("a_b") == "a_b";
    } else {
      assert path[..3] == "a/b";
      assert ReplaceSlashes("a/b") == "a_b";
    }
  }
}
