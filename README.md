# regentanz core, modelled in Dafny

regentanz compiles a directory of CloudFormation fragments into one
template. This project models the pure core of that compiler:

- the logical-name mangler `relative_path_to_name`, which turns a resource
  file's relative path into an identifier;
- the reference expander `expand_refs`, which rewrites `ResolveRef` and
  `ResolveName` directives;
- `compile_resources` and `compile_template`, which assemble the template;
- the structural diff behind `regentanz compare`;
- the short-form YAML tag handlers (`!GetAtt`, `!Ref`, `!Sub`, ...);
- the example `App` resource macro.

Documents are modelled as `Values.Value`: strings, integers, booleans,
nil, dates, arrays and hashes. A hash keeps Ruby's insertion order as a
sequence of entries. `h[k]`, `h[k] = v` and `h.delete(k)` are modelled by
`Get`, `Put` and `Delete`. `Put` replaces an existing key in place and
appends a new one. The source's in-place string edits and its loops are
Dafny methods. Each is proved equal to a specification function, and the
properties are proved about those functions.

Modules and files:

- `values.dfy` (`Values`): documents, Ruby's hash operations and `to_s`.
- `names.dfy` (`LogicalNames`): `relative_path_to_name`.
- `template_compiler.dfy` (`TemplateCompiler`): `expand_refs`,
  `compile_resources` and `compile_template`.
- `compare.dfy` (`TreeDiff`): `Compare#compare` and its `Diff` pair.
- `yaml_tags.dfy` (`YamlTags`): the tag handlers.
- `app.dfy` (`AppMacro`): `Regentanz::Resources::App`.

## Model

| member | source | states |
|---|---|---|
| LogicalNames.SubExtension | lib/regentanz/template_compiler.rb:84 | The in-place `sub!` cuts the leftmost `.ext` whose extension runs to a line end, or leaves the string alone; equal to `StripExtension` |
| LogicalNames.GsubSlashes | lib/regentanz/template_compiler.rb:85 | The in-place `gsub!` leaves a string of the same length with every `/` turned into `_` and no `/` left (`ReplaceSlashes`) |
| LogicalNames.GsubCamel | lib/regentanz/template_compiler.rb:86 | The block `gsub!` drops each `_` and capitalises the character after it, and capitalises the first character of each line; equal to `Camelize` |
| LogicalNames.RelativePathToName | lib/regentanz/template_compiler.rb:82-88 | The three edits in order compute `LogicalName(path)` |
| LogicalNames.LogicalName | lib/regentanz/template_compiler.rb:82-88 | The name of a path: `RelativePathToName` computes it, and `LogicalNameHasNoSlash`, `LogicalNameNoLonger`, `NamesCollide` and the examples state its properties |
| LogicalNames.FindExtension | lib/regentanz/template_compiler.rb:84 | The match `/\.([^.]+)$/` finds: a `.` followed by at least one non-dot character up to a line end, at the leftmost start position and with the longest end there; none exactly when no position starts such a match |
| LogicalNames.ReplaceSlashes | lib/regentanz/template_compiler.rb:85 | Same length, no `/`, and every other character kept in its position |
| LogicalNames.Camelize | lib/regentanz/template_compiler.rb:86 | The result is never longer than its input |
| LogicalNames.CamelizeChars | lib/regentanz/template_compiler.rb:86 | Each character of the result is a capital letter or occurs in the input |
| LogicalNames.LogicalNameHasNoSlash | lib/regentanz/template_compiler.rb:82-88 | A logical name never contains `/` |
| LogicalNames.LogicalNameNoLonger | lib/regentanz/template_compiler.rb:82-88 | A logical name is never longer than its path |
| LogicalNames.StripSingleLine | lib/regentanz/template_compiler.rb:84 | On a one-line string only the suffix after the last `.` is cut, and only when it is non-empty |
| LogicalNames.NoDotNoStrip | lib/regentanz/template_compiler.rb:84 | A string without `.` loses nothing: an extension-less path keeps its name |
| LogicalNames.CamelizeConcat | lib/regentanz/template_compiler.rb:86 | Camelizing a concatenation is camelizing the parts, when the first part ends in neither `_` nor a line feed |
| LogicalNames.CamelizePlain | lib/regentanz/template_compiler.rb:86 | Away from a line start, text with no `_` and no line feed is left unchanged |
| LogicalNames.ExampleCoreEc2Instance | spec/regentanz/template_compiler_spec.rb:76-78 | `core/ec2_instance.json` and `core/ec2_instance` both become `CoreEc2Instance` |
| LogicalNames.StripCoreEc2Instance | lib/regentanz/template_compiler.rb:84-85 | The first two edits turn `core/ec2_instance.json` into `core_ec2_instance` |
| LogicalNames.CamelizeCoreEc2Instance | lib/regentanz/template_compiler.rb:86 | The third edit turns `core_ec2_instance` (as the pieces `core`, `_ec2`, `_inst`, `ance`) into `CoreEc2Instance` |
| LogicalNames.ExampleExtensionless | spec/regentanz/template_compiler_spec.rb:81-89 | The extension-less path `extra` becomes `Extra` |
| LogicalNames.NamesCollide | lib/regentanz/template_compiler.rb:82-88 | `a_b.json` and `a/b.yml` get the same name `AB`, so two paths can collide |
| TemplateCompiler.ExpandRefs | lib/regentanz/template_compiler.rb:90-109 | The value `expand_refs` returns. `ResolveRefLayout`, `ResolveRefNotAPath`, `ResolveNameReplaces`, `ResolveRefFirst`, `PlainHashShape`, `ArrayShape`, `ScalarUnchanged` and `NoDirectivesFixed` state what it gives for each kind of node |
| TemplateCompiler.ResolveRefLayout | lib/regentanz/template_compiler.rb:93-94 | A `ResolveRef: p` hash becomes a hash without `ResolveRef` whose `Ref` is `LogicalName(p)`. `Ref` replaces an existing `Ref` in place or is appended after the kept keys. Every other key keeps its value without being expanded |
| TemplateCompiler.ResolveRefNotAPath | lib/regentanz/template_compiler.rb:93-94 | A truthy non-string `ResolveRef` makes the expansion fail with that value |
| TemplateCompiler.ResolveNameReplaces | lib/regentanz/template_compiler.rb:95-96 | With no truthy `ResolveRef`, a `ResolveName: p` hash becomes the string `LogicalName(p)`, or fails if `p` is not a string |
| TemplateCompiler.ResolveRefFirst | lib/regentanz/template_compiler.rb:93-96 | When both directives are present, `ResolveRef` wins and `ResolveName` stays in the result |
| TemplateCompiler.PlainHashShape | lib/regentanz/template_compiler.rb:97-100 | A hash with no truthy directive keeps its key sequence, with each value expanded; it fails exactly when one of its values fails |
| TemplateCompiler.ArrayShape | lib/regentanz/template_compiler.rb:102-105 | An array keeps its length, element i is the expansion of element i, and it fails exactly when one element fails |
| TemplateCompiler.ExpandEntries | lib/regentanz/template_compiler.rb:98-100 | The hash `merge` that expands every value. `ExpandEntriesShape` states its keys, values and failure |
| TemplateCompiler.ExpandEntriesShape | lib/regentanz/template_compiler.rb:98-100 | The hash-value map keeps keys and length and expands each value |
| TemplateCompiler.ExpandItems | lib/regentanz/template_compiler.rb:102-105 | The array `map`. `ExpandItemsShape` states its length, elements and failure |
| TemplateCompiler.ExpandItemsShape | lib/regentanz/template_compiler.rb:103-105 | The array map keeps length and expands each element |
| TemplateCompiler.ScalarUnchanged | lib/regentanz/template_compiler.rb:106-107 | Scalars are returned unchanged and are not modified |
| TemplateCompiler.NoDirectivesFixed | lib/regentanz/template_compiler.rb:90-108 | A tree with no `ResolveRef`/`ResolveName` key anywhere expands to itself and is left unmodified |
| TemplateCompiler.Residue | lib/regentanz/template_compiler.rb:90-109 | The input tree after `expand_refs`: the `delete` calls at lines 93 and 95 change it. `ResidueOfDirective`, `ResidueOfPlainHash`, `ResidueEntriesShape` and `NoDirectivesFixed` state what is left |
| TemplateCompiler.ResidueOfDirective | lib/regentanz/template_compiler.rb:93-95 | After expansion the caller's directive hash has lost exactly its `ResolveRef` key, or its `ResolveRef` and `ResolveName` keys, and nothing else |
| TemplateCompiler.ResidueOfPlainHash | lib/regentanz/template_compiler.rb:97-100 | A plain hash keeps its keys, and each value is what the recursive pass left of it |
| TemplateCompiler.ResidueEntriesShape | lib/regentanz/template_compiler.rb:98-100 | Visiting the values of a hash changes no key and changes each value as its own visit does |
| TemplateCompiler.ExpandSharedPair | lib/regentanz/template_compiler.rb:93-105 | A subtree reached twice, as a YAML alias makes it: this succeeds exactly when both visits succeed, and the second copy is the expansion of what the first visit left |
| TemplateCompiler.Aliased | lib/regentanz/template_compiler.rb:93-105 | The first visit's result read after the input has changed further: `merge` copies only the top hash, so each shared value shows its later state. `AliasedUntouched` and `SharedAliasExample` state its properties |
| TemplateCompiler.AliasedUntouched | lib/regentanz/template_compiler.rb:90-109 | For a tree with distinct keys whose expansion succeeds, the result read right after the pass is exactly the returned value |
| TemplateCompiler.SharedResolveRefDiverges | lib/regentanz/template_compiler.rb:93-94 | A `ResolveRef` hash with no `Ref` of its own, reached twice, expands to two different values: the first has `Ref`, the second has lost its reference |
| TemplateCompiler.SharedResolveRefExample | lib/regentanz/template_compiler.rb:93-94 | `{ResolveRef: a}` reached twice gives `{Ref: A}` and then `{}` |
| TemplateCompiler.SharedAliasExample | lib/regentanz/template_compiler.rb:93-100 | `{ResolveRef: a, M: {ResolveName: b}}` reached twice gives `{M: {}, Ref: A}` and `{M: B}`, and the first copy differs from what the first visit returned |
| TemplateCompiler.SharedPairFirstCopy | lib/regentanz/template_compiler.rb:93-105 | When the second visit changes nothing further, the first copy is the ordinary expansion |
| TemplateCompiler.SharedPairExpandsAlike | lib/regentanz/template_compiler.rb:102-105 | Expansion as a function of its input gives both copies of a shared subtree the same expansion |
| TemplateCompiler.ExampleResolveRef | spec/regentanz/template_compiler_spec.rb:84-92 | `{ResolveRef: core/ec2_instance}` becomes `{Ref: CoreEc2Instance}` |
| TemplateCompiler.AddNamesProperties | lib/regentanz/template_compiler.rb:75-78 | Assigning names adds exactly the new ones, never repeats a key, and appends all of them when none repeats |
| TemplateCompiler.CompileFrom | lib/regentanz/template_compiler.rb:75-78 | The `each_with_object` fold from a given result hash. `CompileFromSucceeds`, `CompileFromKeeps` and `CompileFromLastWins` state its failure, what it keeps and what it writes |
| TemplateCompiler.CompiledResources | lib/regentanz/template_compiler.rb:74-79 | The hash `compile_resources` returns. `CompiledResourcesKeys`, `CompiledResourcesLastWins` and `CompiledResourcesDistinct` state its keys and values |
| TemplateCompiler.CompileResources | lib/regentanz/template_compiler.rb:74-79 | The `each_with_object` loop computes `CompiledResources` |
| TemplateCompiler.CompileFromSucceeds | lib/regentanz/template_compiler.rb:74-79 | Compiling succeeds exactly when every fragment expands |
| TemplateCompiler.CompileFromKeeps | lib/regentanz/template_compiler.rb:77 | A name no later path takes keeps the value it already had |
| TemplateCompiler.CompiledResourcesKeys | lib/regentanz/template_compiler.rb:74-79 | The keys are the mangled names in first-assignment order, without repetition, and exactly the names of the paths |
| TemplateCompiler.CompiledResourcesLastWins | lib/regentanz/template_compiler.rb:76-77 | Under a name, the value is the expansion of the last fragment whose path takes that name |
| TemplateCompiler.CompiledResourcesDistinct | lib/regentanz/template_compiler.rb:74-79 | When no two paths collide, entry i is (name of path i, expansion of fragment i) |
| TemplateCompiler.Sections | lib/regentanz/template_compiler.rb:30-34 | The optional sections are `Parameters`, `Mappings`, `Conditions`, `Outputs` and `Metadata`, in that order |
| TemplateCompiler.PresentMembers | lib/regentanz/template_compiler.rb:30-34 | A section is written exactly when its option is truthy |
| TemplateCompiler.AssignSection | lib/regentanz/template_compiler.rb:30 | One guarded assignment `template[key] = expand_refs(option) if option` |
| TemplateCompiler.CompileTemplate | lib/regentanz/template_compiler.rb:27-36 | The successive assignments compute `Template(resources, options)` |
| TemplateCompiler.TemplateFrom | lib/regentanz/template_compiler.rb:30-34 | The guarded section assignments. `TemplateFromAppends` and `TemplateFromLookup` state what they add and what they keep |
| TemplateCompiler.TemplateFromAppends | lib/regentanz/template_compiler.rb:30-34 | Assigning fresh keys appends the expanded truthy sections in order. It fails exactly when one of them fails, with that section's error |
| TemplateCompiler.Template | lib/regentanz/template_compiler.rb:27-36 | The template `compile_template` returns. `TemplateAppends`, `TemplateShape` and `TemplateSection` state its layout and contents |
| TemplateCompiler.TemplateAppends | lib/regentanz/template_compiler.rb:27-36 | The template is the header, then the expanded present sections; it fails exactly when resources or a present section fail |
| TemplateCompiler.TemplateShape | lib/regentanz/template_compiler.rb:27-36 | The template's keys are `AWSTemplateFormatVersion`, `Resources`, then the present sections. The format version is `2010-09-09` and `Resources` holds the compiled resources |
| TemplateCompiler.TemplateSection | spec/regentanz/template_compiler_spec.rb:67-74 | A truthy option appears under its key as its expansion; a nil or false option leaves its key out (also template_compiler_spec.rb:222) |
| TemplateCompiler.TemplateFromLookup | lib/regentanz/template_compiler.rb:30-34 | After the guarded assignments each truthy section maps to its expansion, and every other key keeps its earlier value |
| TreeDiff.Compare | lib/regentanz/cli/compare.rb:49-82 | The value `compare` returns. `DateAgainstString`, `ClassMismatch`, `ScalarCompare`, `NilAgainstValue`, `ArrayCompare`, `HashLayout` and `CompareSelf` state it case by case |
| TreeDiff.CompareTrees | lib/regentanz/cli/compare.rb:49-82 | The recursive method computes `Compare`: the date coercion, the class test, the hash and array branches and the scalar test |
| TreeDiff.CompareNewKeys | lib/regentanz/cli/compare.rb:58-61 | The loop over the new keys computes `FoldNew` from an empty result hash |
| TreeDiff.CompareOldKeys | lib/regentanz/cli/compare.rb:62-64 | The loop over the old keys computes `FoldOld`, adding only keys the new hash lacks |
| TreeDiff.CompareZipped | lib/regentanz/cli/compare.rb:70-72 | The zip-and-map over two arrays of one length computes `CompareItems` |
| TreeDiff.CompareItems | lib/regentanz/cli/compare.rb:70-72 | The element-wise comparison of two arrays. `ArrayCompare` states its length and elements |
| TreeDiff.ClassMismatch | lib/regentanz/cli/compare.rb:53-54 | Values of different classes give exactly `Diff(new, old)`; `true` and `false` are different classes |
| TreeDiff.DateAgainstString | lib/regentanz/cli/compare.rb:50-52 | A new date against an old string is compared as a string |
| TreeDiff.ScalarCompare | lib/regentanz/cli/compare.rb:74-79 | Equal scalars of one class give the new value; unequal ones give `Diff(new, old)` |
| TreeDiff.NilAgainstValue | lib/regentanz/cli/compare.rb:53-54 | nil against any non-nil value is a `Diff`, so an old-only key is reported unless its value is nil |
| TreeDiff.ArrayCompare | lib/regentanz/cli/compare.rb:66-73 | Arrays of different lengths give one `Diff` of the whole arrays. Arrays of one length give the comparison of element i at position i |
| TreeDiff.HashLayout | lib/regentanz/cli/compare.rb:57-65 | The result lists the new keys in order, each compared with the old value under that key. Then come the old-only keys in order, each compared with nil |
| TreeDiff.FoldNew | lib/regentanz/cli/compare.rb:58-61 | The loop over the new keys. `FoldNewAppends` states what it appends |
| TreeDiff.FoldNewAppends | lib/regentanz/cli/compare.rb:59-61 | The first loop appends one entry per new key, in order |
| TreeDiff.FoldOld | lib/regentanz/cli/compare.rb:62-64 | The loop over the old keys. `FoldOldAppends` states what it appends |
| TreeDiff.FoldOldAppends | lib/regentanz/cli/compare.rb:62-64 | The second loop appends one entry per old-only key, in order |
| TreeDiff.CompareSelf | lib/regentanz/cli/compare.rb:53-80 | A template compared with itself gives back the template, with no `Diff` anywhere |
| TreeDiff.LiftNoDiff | lib/regentanz/cli/compare.rb:74-76 | A template seen as a comparison result holds no `Diff` |
| YamlTags.DirectiveKeysDistinct | lib/regentanz/yaml-ext.rb:5-17 | Two different tags never write the same directive key |
| YamlTags.Directive | lib/regentanz/yaml-ext.rb:5-17 | Every handler returns a hash with exactly one key, the tag's directive key |
| YamlTags.SplitDots | lib/regentanz/yaml-ext.rb:6 | Ruby's `split('.')`. `SplitHasNoDot`, `JoinSplit`, `SplitRoundTrip` and `SplitLosesTrailingDots` state what it gives |
| YamlTags.SplitHasNoDot | lib/regentanz/yaml-ext.rb:6 | No segment of `split('.')` holds a dot |
| YamlTags.JoinSplit | lib/regentanz/yaml-ext.rb:6 | Joining the segments with dots gives the string without its trailing dots |
| YamlTags.SplitRoundTrip | lib/regentanz/yaml-ext.rb:6 | For text not ending in `.`, joining the segments with dots gives the text back |
| YamlTags.SplitLosesTrailingDots | lib/regentanz/yaml-ext.rb:6 | Text ending in `.` does not come back, because `split` drops trailing empty segments |
| YamlTags.GetAttDirective | lib/regentanz/yaml-ext.rb:5-7 | `!GetAtt` gives `{Fn::GetAtt: segments}`: string segments with no dot, joining back to the value's text when it does not end in `.` |
| YamlTags.PassThroughDirective | lib/regentanz/yaml-ext.rb:8-17 | Every tag other than `GetAtt` keeps the tagged value unchanged under its key |
| YamlTags.DirectiveKeyRoundTrip | lib/regentanz/yaml-ext.rb:5-17 | The directive key identifies its tag; no two handlers write the same key |
| YamlTags.ResolveRefTagExpands | lib/regentanz/template_compiler.rb:93-94 | The hash `!ResolveRef p` builds expands to the `Ref` directive of `LogicalName(p)` |
| AppMacro.Compile | examples/lib/regentanz/resources/app.rb:4-13 | The hash `compile` returns. `CompileSucceeds`, `ResourceKeys` and `ReferencesDefined` state when it fails and what it holds |
| AppMacro.CompileSucceeds | examples/lib/regentanz/resources/app.rb:4-13 | `compile` fails exactly when the declaration or its `Properties` takes no string index |
| AppMacro.ResourceKeys | examples/lib/regentanz/resources/app.rb:7-11 | The resources are exactly `<name>Asg`, `<name>Lc` and `<name>Sg`, in that order and distinct |
| AppMacro.CompileParameters | examples/lib/regentanz/resources/app.rb:17-40 | `compile_parameters`. `ParameterGroup`, `ParameterMembersShape` and `CountBounds` state its contents |
| AppMacro.ParameterGroup | examples/lib/regentanz/resources/app.rb:18-21 | One parameter group `<name> parameters` of type `Regentanz::ParameterGroup` holding the members |
| AppMacro.ParameterMembersShape | examples/lib/regentanz/resources/app.rb:22-36 | The members are `<name>Count`, `<name>InstanceType` and `<name>Ami`, distinct, each with a label first |
| AppMacro.CountBounds | examples/lib/regentanz/resources/app.rb:25-26 | The instance count defaults to 3 with minimum 1 |
| AppMacro.CompileAsg | examples/lib/regentanz/resources/app.rb:42-57 | `compile_asg`. `AsgShape`, `AsgSizes` and `AsgLaunchConfiguration` state its contents |
| AppMacro.AsgShape | examples/lib/regentanz/resources/app.rb:42-57 | `compile_asg` fails exactly when `Properties` cannot be indexed; otherwise it gives the auto-scaling group type and properties built from `Properties['Name']` |
| AppMacro.CompileLc | examples/lib/regentanz/resources/app.rb:59-71 | `compile_lc`. `LcShape`, `LcReferences` and `ProfileCopied` state its contents |
| AppMacro.LcShape | examples/lib/regentanz/resources/app.rb:59-71 | `compile_lc` fails exactly when `Properties` cannot be indexed; otherwise it gives the launch configuration type and properties built from `Properties['IamInstanceProfile']` |
| AppMacro.CompileSg | examples/lib/regentanz/resources/app.rb:73-85 | `compile_sg`. `SgShape`, `SgReferences` and `VpcCopied` state its contents |
| AppMacro.SgShape | examples/lib/regentanz/resources/app.rb:73-85 | `compile_sg` fails exactly when `Properties` cannot be indexed; otherwise it gives the security group type and properties built from `Properties['Name']` and `Properties['VpcId']` |
| AppMacro.AsgSizes | examples/lib/regentanz/resources/app.rb:47-49 | The ASG's desired and maximum sizes ref `<name>Count`, and its minimum is 0 |
| AppMacro.AsgLaunchConfiguration | examples/lib/regentanz/resources/app.rb:50 | The ASG's launch configuration refs `<name>Lc` |
| AppMacro.AsgProperty | examples/lib/regentanz/resources/app.rb:45-55 | Each of the six ASG properties is read back under its own key: the keys the macro writes are distinct |
| AppMacro.LcReferences | examples/lib/regentanz/resources/app.rb:63-68 | The launch configuration refs `<name>Ami` and `<name>InstanceType`, passes the profile through, and has security groups exactly `[Ref <name>Sg]` |
| AppMacro.LcProperty | examples/lib/regentanz/resources/app.rb:62-69 | Each of the four launch-configuration properties is read back under its own key |
| AppMacro.SgReferences | examples/lib/regentanz/resources/app.rb:77-78 | The group name is `${Environment}-<Name>-sg` and the VPC is passed through |
| AppMacro.ReferencesDefined | examples/lib/regentanz/resources/app.rb:4-38 | The five names the resources refer to and that the macro defines are defined in the same output: `<name>Lc` and `<name>Sg` among its resources, and `<name>Count`, `<name>InstanceType` and `<name>Ami` among the members of the parameter group in its `parameters`. `Environment` (lines 52 and 80) is not defined by the macro |
| AppMacro.ProfileCopied | examples/lib/regentanz/resources/app.rb:65 | `IamInstanceProfile` is the declaration's value, unchanged |
| AppMacro.VpcCopied | examples/lib/regentanz/resources/app.rb:78 | `VpcId` is the declaration's value, unchanged |

## Left out

- Loading (`compile_from_path`, `load_top_level_file`, `load_resources`,
  `load`): directory globbing, `Dir.chdir` and YAML parsing are I/O. The
  compiler takes the loaded fragments as a sequence of (path, document)
  entries.
- The ambiguity branch of `load_top_level_file`: it discards its
  formatted message and raises with an undefined name, so no error
  contract is modelled for it.
- `validate_template`, `initialize`, `Cli::Common`, the `compile` and
  `compare` commands' `run`, and `get_template`: these are AWS SDK calls,
  the environment, configuration files, standard output and exit codes.
- The change test of `Compare#run` (`diff.to_json != new_template.to_json`)
  and `Diff#to_json`: JSON serialisation and ANSI colours are not
  modelled. `TreeDiff.CompareSelf` states the property that test relies
  on.
- The global registration with `YAML.add_domain_type`: only the value
  each handler returns is modelled.
- Floating-point numbers, symbols and non-string hash keys: documents
  hold integers, strings, booleans, nil, dates, arrays and string-keyed
  hashes.
- `Values.ToS` gives `""` for arrays and hashes, where Ruby prints their
  inspect form. This affects `!GetAtt` on a collection and the
  interpolation of a collection-valued `Name` in the App macro.
- LogicalNames.Upcase: only ASCII letters are upcased. Ruby's full Unicode
  `upcase` can lengthen a string, so `LogicalNameNoLonger` holds for this
  model and not for every Unicode path.
- TemplateCompiler.ExpandRefs: mutation is modelled as a value, the
  `Residue` function, which gives the input tree after the pass. Object
  identity and aliasing are modelled only for one subtree reached twice
  (`ExpandSharedPair`, with `Aliased`); a tree that shares objects inside
  itself in any other way is treated as if it did not.
- TemplateCompiler.CompileResources: it returns the compiled hash and not
  the residue its fragments are left in.
- Behaviour that only the tests assert and `template_compiler.rb` does not
  implement: `Label` stripping and `ParameterLabels`, parameter group
  lifting, macro dispatch, and the test-only `BucketAndPolicy` macro.
- AppMacro: the `Ami` parameter's label is `Instance type`, as written in
  the source (a copy of the instance type label).
- App macro lookups on integers, arrays and booleans: Ruby's exceptions
  differ by receiver class (`TypeError`, `NoMethodError`). They are all
  one `NotIndexable` error.

## Findings

| source | as written | input that shows it | evidently intended | confidence | as-written member | corrected member |
|---|---|---|---|---|---|---|
| lib/regentanz/template_compiler.rb:93-100 | `expand_refs` deletes `ResolveRef`/`ResolveName` from the hash it is given, so a subtree reached twice (a YAML alias `&a` ... `*a`) is expanded from what the first visit left. | `[*a, *a]` with `a = {ResolveRef: a}` expands to `[{Ref: A}, {}]`; with `a = {ResolveRef: a, M: {ResolveName: b}}` to `[{M: {}, Ref: A}, {M: B}]` | The pass leaves its input untouched, so callers may reuse a subtree; both copies become `{Ref: A}` | not executed; follows from Ruby's `Hash#delete` and shared YAML aliases | TemplateCompiler.ExpandSharedPair (with TemplateCompiler.SharedResolveRefDiverges, TemplateCompiler.SharedResolveRefExample and TemplateCompiler.SharedAliasExample) | TemplateCompiler.SharedPairExpandsAlike |
