/** The example resource macro `Regentanz::Resources::App`: from a name and
    a resource declaration it builds a parameter group and three
    resources (an auto-scaling group, its launch configuration and a
    security group) that refer to each other by name. */
module AppMacro {
  import opened Values

  /** Why Ruby would raise inside the macro: `[]` sent to a value that
      does not take a string index (nil, a number, a boolean, an array). */
  datatype MacroError = NotIndexable(receiver: Value, key: string)

  /** The hash `compile` returns, with its two symbol keys. */
  datatype MacroOutput = MacroOutput(parameters: Value, resources: Value)

  predicate IsSubstring(k: string, s: string) {
    exists i, j :: 0 <= i <= j <= |s| && s[i..j] == k
  }

  /** Ruby's `v[key]` for a string key: a hash looks the key up, a string
      gives the key back if it occurs in it and nil otherwise, anything
      else raises. */
  function Index(v: Value, key: string): (r: Result<Value, MacroError>)
    ensures r.Success? <==> v.Obj? || v.Str?
    ensures v.Obj? ==> r == Success(Get(v.entries, key))
    ensures v.Str? ==> r == Success(if IsSubstring(key, v.s) then Str(key) else Null)
  {
    match v
    case Obj(es) => Success(Get(es, key))
    case Str(s) => Success(if IsSubstring(key, s) then Str(key) else Null)
    case _ => Failure(NotIndexable(v, key))
  }

  function RefTo(target: string): Value {
    Obj([Entry("Ref", Str(target))])
  }

  function SubOf(text: string): Value {
    Obj([Entry("Fn::Sub", Str(text))])
  }

  // ---------------------------------------------------------------------
  // The four builders and compile

  function CountName(name: string): string { name + "Count" }
  function InstanceTypeName(name: string): string { name + "InstanceType" }
  function AmiName(name: string): string { name + "Ami" }
  function AsgName(name: string): string { name + "Asg" }
  function LcName(name: string): string { name + "Lc" }
  function SgName(name: string): string { name + "Sg" }
  function GroupName(name: string): string { name + " parameters" }

  function ParameterMembers(name: string): seq<Entry<Value>> {
    [ Entry(CountName(name), Obj([
        Entry("Label", Str("Instance count")),
        Entry("Type", Str("Number")),
        Entry("Default", Num(3)),
        Entry("MinValue", Num(1))])),
      Entry(InstanceTypeName(name), Obj([
        Entry("Label", Str("Instance type")),
        Entry("Type", Str("String")),
        Entry("Default", Str("m5.large"))])),
      Entry(AmiName(name), Obj([
        Entry("Label", Str("Instance type")),
        Entry("Type", Str("String"))])) ]
  }

  /** `compile_parameters`. */
  function CompileParameters(name: string): Value {
    Obj([Entry(GroupName(name), Obj([
      Entry("Type", Str("Regentanz::ParameterGroup")),
      Entry("Parameters", Obj(ParameterMembers(name)))]))])
  }

  /** The `Properties` hash of the auto-scaling group. */
  function AsgProperties(name: string, nameProperty: Value): seq<Entry<Value>> {
    [ Entry("AvailabilityZones", Obj([Entry("Fn::GetAZs", Str(""))])),
      Entry("MinSize", Num(0)),
      Entry("DesiredCapacity", RefTo(CountName(name))),
      Entry("MaxSize", RefTo(CountName(name))),
      Entry("LaunchConfigurationName", RefTo(LcName(name))),
      Entry("Tags", Arr([
        Obj([Entry("Key", Str("Environment")), Entry("Value", RefTo("Environment")), Entry("PropagateAtLaunch", Bool(true))]),
        Obj([Entry("Key", Str("Name")), Entry("Value", SubOf("${Environment}-" + ToS(nameProperty) + "-asg"))])])) ]
  }

  /** `compile_asg`. */
  function CompileAsg(name: string, properties: Value): Result<Value, MacroError> {
    var nameProperty :- Index(properties, "Name");
    Success(Obj([
      Entry("Type", Str("AWS::AutoScaling::AutoScalingGroup")),
      Entry("Properties", Obj(AsgProperties(name, nameProperty)))]))
  }

  /** The `Properties` hash of the launch configuration. */
  function LcProperties(name: string, profile: Value): seq<Entry<Value>> {
    [ Entry("ImageId", RefTo(AmiName(name))),
      Entry("InstanceType", RefTo(InstanceTypeName(name))),
      Entry("IamInstanceProfile", profile),
      Entry("SecurityGroups", Arr([RefTo(SgName(name))])) ]
  }

  /** `compile_lc`. */
  function CompileLc(name: string, properties: Value): Result<Value, MacroError> {
    var profile :- Index(properties, "IamInstanceProfile");
    Success(Obj([
      Entry("Type", Str("AWS::AutoScaling::LaunchConfiguration")),
      Entry("Properties", Obj(LcProperties(name, profile)))]))
  }

  /** The `Properties` hash of the security group. */
  function SgProperties(name: string, nameProperty: Value, vpc: Value): seq<Entry<Value>> {
    [ Entry("GroupName", SubOf("${Environment}-" + ToS(nameProperty) + "-sg")),
      Entry("VpcId", vpc),
      Entry("Tags", Arr([
        Obj([Entry("Key", Str("Environment")), Entry("Value", RefTo("Environment"))]),
        Obj([Entry("Key", Str("Name")), Entry("Value", SubOf("${Environment}-" + ToS(nameProperty) + "-sg"))])])) ]
  }

  /** `compile_sg`. */
  function CompileSg(name: string, properties: Value): Result<Value, MacroError> {
    var nameProperty :- Index(properties, "Name");
    var vpc :- Index(properties, "VpcId");
    Success(Obj([
      Entry("Type", Str("AWS::EC2::SecurityGroup")),
      Entry("Properties", Obj(SgProperties(name, nameProperty, vpc)))]))
  }

  /** `compile(name, template)`. */
  function Compile(name: string, template: Value): Result<MacroOutput, MacroError> {
    var properties :- Index(template, "Properties");
    var asg :- CompileAsg(name, properties);
    var lc :- CompileLc(name, properties);
    var sg :- CompileSg(name, properties);
    Success(MacroOutput(CompileParameters(name), Obj([
      Entry(AsgName(name), asg),
      Entry(LcName(name), lc),
      Entry(SgName(name), sg)])))
  }

  // ---------------------------------------------------------------------
  // Properties

  /** `compile` fails exactly when Ruby would raise: the declaration, or
      its `Properties`, takes no string index. */
  lemma CompileSucceeds(name: string, template: Value)
    ensures Compile(name, template).Success? <==>
      (template.Obj? || template.Str?) &&
      (Index(template, "Properties").value.Obj? || Index(template, "Properties").value.Str?)
  {
  }

  lemma ResourceNamesDistinct(name: string)
    ensures AsgName(name) != LcName(name) && LcName(name) != SgName(name) && AsgName(name) != SgName(name)
  {
    assert |AsgName(name)| != |LcName(name)|;
    assert |AsgName(name)| != |SgName(name)|;
    assert LcName(name)[|name|] == 'L' && SgName(name)[|name|] == 'S';
  }

  lemma MemberNamesDistinct(name: string)
    ensures UniqueKeys(ParameterMembers(name))
  {
    assert |CountName(name)| != |InstanceTypeName(name)|;
    assert CountName(name)[|name|] == 'C' && AmiName(name)[|name|] == 'A';
    assert |InstanceTypeName(name)| != |AmiName(name)|;
  }

  /** The resources are exactly `<name>Asg`, `<name>Lc` and `<name>Sg`, in
      that order, with distinct names. */
  lemma ResourceKeys(name: string, template: Value)
    requires Compile(name, template).Success?
    ensures Compile(name, template).value.resources.Obj?
    ensures Keys(Compile(name, template).value.resources.entries) == [AsgName(name), LcName(name), SgName(name)]
    ensures UniqueKeys(Compile(name, template).value.resources.entries)
  {
    var properties := Index(template, "Properties").value;
    var asg := CompileAsg(name, properties).value;
    var lc := CompileLc(name, properties).value;
    var sg := CompileSg(name, properties).value;
    assert Compile(name, template).value.resources
        == Obj([Entry(AsgName(name), asg), Entry(LcName(name), lc), Entry(SgName(name), sg)]);
    ResourceNamesDistinct(name);
    ThreeKeys(Entry(AsgName(name), asg), Entry(LcName(name), lc), Entry(SgName(name), sg));
  }

  lemma ThreeKeys(a: Entry<Value>, b: Entry<Value>, c: Entry<Value>)
    requires a.key != b.key && b.key != c.key && a.key != c.key
    ensures Keys([a, b, c]) == [a.key, b.key, c.key]
    ensures UniqueKeys([a, b, c])
  {
  }

  /** One parameter group `"<name> parameters"` of type
      `Regentanz::ParameterGroup` holding the member parameters. */
  lemma ParameterGroup(name: string)
    ensures var p := CompileParameters(name);
      && p.Obj? && Keys(p.entries) == [GroupName(name)]
      && Get(p.entries[0].val.entries, "Type") == Str("Regentanz::ParameterGroup")
      && Get(p.entries[0].val.entries, "Parameters") == Obj(ParameterMembers(name))
  {
    var group := CompileParameters(name).entries[0].val.entries;
    GetFirst(group, 1);
  }

  /** The group's members are `<name>Count`, `<name>InstanceType` and
      `<name>Ami`, each carrying a label. */
  lemma ParameterMembersShape(name: string)
    ensures Keys(ParameterMembers(name)) == [CountName(name), InstanceTypeName(name), AmiName(name)]
    ensures UniqueKeys(ParameterMembers(name))
    ensures forall i :: 0 <= i < 3 ==>
      ParameterMembers(name)[i].val.Obj? && ParameterMembers(name)[i].val.entries[0].key == "Label"
  {
    MemberNamesDistinct(name);
  }

  /** The instance count defaults to 3 and is at least 1. */
  lemma CountBounds(name: string)
    ensures Get(ParameterMembers(name)[0].val.entries, "Default") == Num(3)
    ensures Get(ParameterMembers(name)[0].val.entries, "MinValue") == Num(1)
  {
    var count := ParameterMembers(name)[0].val.entries;
    GetFirst(count, 2);
    GetFirst(count, 3);
  }

  /** Each resource is a `Type` and a `Properties` hash, built from the
      declaration's properties as `[]` reads them; a builder fails
      exactly when those properties take no string index. */
  lemma AsgShape(name: string, properties: Value)
    ensures CompileAsg(name, properties).Success? <==> properties.Obj? || properties.Str?
    ensures CompileAsg(name, properties).Success? ==>
      CompileAsg(name, properties).value == Obj([
        Entry("Type", Str("AWS::AutoScaling::AutoScalingGroup")),
        Entry("Properties", Obj(AsgProperties(name, Index(properties, "Name").value)))])
  {
  }

  lemma LcShape(name: string, properties: Value)
    ensures CompileLc(name, properties).Success? <==> properties.Obj? || properties.Str?
    ensures CompileLc(name, properties).Success? ==>
      CompileLc(name, properties).value == Obj([
        Entry("Type", Str("AWS::AutoScaling::LaunchConfiguration")),
        Entry("Properties", Obj(LcProperties(name, Index(properties, "IamInstanceProfile").value)))])
  {
  }

  lemma SgShape(name: string, properties: Value)
    ensures CompileSg(name, properties).Success? <==> properties.Obj? || properties.Str?
    ensures CompileSg(name, properties).Success? ==>
      CompileSg(name, properties).value == Obj([
        Entry("Type", Str("AWS::EC2::SecurityGroup")),
        Entry("Properties", Obj(SgProperties(name, Index(properties, "Name").value, Index(properties, "VpcId").value)))])
  {
  }

  /** The auto-scaling group sizes itself by the count parameter, from a
      minimum of 0. */
  lemma AsgSizes(name: string, nameProperty: Value)
    ensures var props := AsgProperties(name, nameProperty);
      && Get(props, "DesiredCapacity") == RefTo(CountName(name))
      && Get(props, "MaxSize") == RefTo(CountName(name))
      && Get(props, "MinSize") == Num(0)
  {
    AsgProperty(name, nameProperty, 1);
    AsgProperty(name, nameProperty, 2);
    AsgProperty(name, nameProperty, 3);
  }

  lemma AsgProperty(name: string, nameProperty: Value, i: nat)
    requires i < 6
    ensures var props := AsgProperties(name, nameProperty); Get(props, props[i].key) == props[i].val
  {
    GetFirst(AsgProperties(name, nameProperty), i);
  }

  /** The auto-scaling group launches from the launch configuration of the
      same `compile`. */
  lemma AsgLaunchConfiguration(name: string, nameProperty: Value)
    ensures Get(AsgProperties(name, nameProperty), "LaunchConfigurationName") == RefTo(LcName(name))
  {
    GetFirst(AsgProperties(name, nameProperty), 4);
  }

  /** The launch configuration boots the AMI and instance type parameters,
      passes the instance profile through, and uses exactly the security
      group of the same `compile`. */
  lemma LcReferences(name: string, profile: Value)
    ensures var props := LcProperties(name, profile);
      && Get(props, "ImageId") == RefTo(AmiName(name))
      && Get(props, "InstanceType") == RefTo(InstanceTypeName(name))
      && Get(props, "IamInstanceProfile") == profile
      && Get(props, "SecurityGroups") == Arr([RefTo(SgName(name))])
  {
    LcProperty(name, profile, 1);
    LcProperty(name, profile, 2);
    LcProperty(name, profile, 3);
  }

  lemma LcProperty(name: string, profile: Value, i: nat)
    requires i < 4
    ensures var props := LcProperties(name, profile); Get(props, props[i].key) == props[i].val
  {
    GetFirst(LcProperties(name, profile), i);
  }

  /** The security group's name interpolates the declaration's `Name` into
      `${Environment}-<Name>-sg`, and its VPC is passed through. */
  lemma SgReferences(name: string, nameProperty: Value, vpc: Value)
    ensures var props := SgProperties(name, nameProperty, vpc);
      && Get(props, "GroupName") == SubOf("${Environment}-" + ToS(nameProperty) + "-sg")
      && Get(props, "VpcId") == vpc
  {
    GetFirst(SgProperties(name, nameProperty, vpc), 1);
  }

  /** The five names the generated resources refer to and that the macro
      itself defines are defined by the same `compile`: the launch
      configuration and the security group among its resources, the
      count, instance type and AMI among the members of the parameter
      group it returns.  (`Environment`, also referred to, is a parameter
      the surrounding template has to declare.) */
  lemma ReferencesDefined(name: string, template: Value)
    requires Compile(name, template).Success?
    ensures var out := Compile(name, template).value;
      && out.resources.Obj?
      && LcName(name) in Keys(out.resources.entries)
      && SgName(name) in Keys(out.resources.entries)
    ensures var out := Compile(name, template).value;
      && out.parameters.Obj?
      && Get(out.parameters.entries, GroupName(name)).Obj?
      && var group := Get(out.parameters.entries, GroupName(name)).entries;
         && Get(group, "Parameters").Obj?
         && var members := Get(group, "Parameters").entries;
            && CountName(name) in Keys(members)
            && InstanceTypeName(name) in Keys(members)
            && AmiName(name) in Keys(members)
  {
    ResourceKeys(name, template);
    ParameterMembersShape(name);
    var out := Compile(name, template).value;
    assert out.parameters == CompileParameters(name);
    GetFirst(out.parameters.entries, 0);
    var group := Get(out.parameters.entries, GroupName(name)).entries;
    GetFirst(group, 1);
  }

  /** Given a `Properties` hash, the launch configuration's instance
      profile is the declaration's, unchanged. */
  lemma ProfileCopied(name: string, entries: seq<Entry<Value>>)
    ensures CompileLc(name, Obj(entries)).Success?
    ensures var lc := CompileLc(name, Obj(entries)).value;
      && Get(lc.entries, "Properties") == Obj(LcProperties(name, Get(entries, "IamInstanceProfile")))
      && Get(LcProperties(name, Get(entries, "IamInstanceProfile")), "IamInstanceProfile") == Get(entries, "IamInstanceProfile")
  {
    LcShape(name, Obj(entries));
    GetFirst(CompileLc(name, Obj(entries)).value.entries, 1);
    LcReferences(name, Get(entries, "IamInstanceProfile"));
  }

  /** Given a `Properties` hash, the security group's VPC is the
      declaration's, unchanged. */
  lemma VpcCopied(name: string, entries: seq<Entry<Value>>)
    ensures CompileSg(name, Obj(entries)).Success?
    ensures var sg := CompileSg(name, Obj(entries)).value;
      && Get(sg.entries, "Properties") == Obj(SgProperties(name, Get(entries, "Name"), Get(entries, "VpcId")))
      && Get(SgProperties(name, Get(entries, "Name"), Get(entries, "VpcId")), "VpcId") == Get(entries, "VpcId")
  {
    SgShape(name, Obj(entries));
    GetFirst(CompileSg(name, Obj(entries)).value.entries, 1);
    SgReferences(name, Get(entries, "Name"), Get(entries, "VpcId"));
  }
}
