/**
 `parseCommandLine` of the LLVMIR2OBJ driver: it reads `argv` into a map from
 keys to lists of values. An argument that does not begin with `--` is
 positional and is appended under the empty key; `--key=value` appends `value`
 under `--key`; a bare `--key` registers the key without a value.
 */
module CommandLine {
  import opened Strings

  /** `std::map<std::string, std::vector<std::string>>`. */
  type CommandLine = map<string, seq<string>>

  const SwitchPrefix: string := "--"

  /** `cl[key]` as `std::map::operator[]` reads it: a key that is missing reads as an empty list. */
  function Lookup(cl: CommandLine, key: string): seq<string>
  {
    if key in cl then cl[key] else []
  }

  /** The map after one more argument, following the two branches of the parser's loop body. */
  function Step(cl: CommandLine, arg: string): CommandLine
  {
    if StartsWith(arg, SwitchPrefix) then
      var parts := SplitFirst(arg, '=');
      var key := if |parts| == 2 then parts[0] else arg;
      var registered := cl[key := Lookup(cl, key)];
      if |parts| == 2 then registered[key := registered[key] + [parts[1]]] else registered
    else
      cl["" := Lookup(cl, "") + [arg]]
  }

  /** The map the parser's loop has built after reading `args` from the left. */
  function Parse(args: seq<string>): CommandLine
    decreases |args|
  {
    if args == [] then map[] else Step(Parse(args[..|args| - 1]), args[|args| - 1])
  }

  /**
   `parseCommandLine(argc, argv)`: copies `argv` into a vector, then files
   every argument in order. The result is `Parse(argv)`: the positional
   arguments (`argv[0]` included unless it begins with `--`) stand in order
   under the empty key, and every other key is a switch name.
   */
  method ParseCommandLine(argv: seq<string>) returns (cl: CommandLine)
    ensures cl == Parse(argv)
    ensures Lookup(cl, "") == Positionals(argv)
    ensures forall key :: key in cl ==> key == "" || IsSwitchKey(key)
  {
    var args: seq<string> := [];
    var i := 0;
    while i < |argv|
      invariant 0 <= i <= |argv|
      invariant args == argv[..i]
    {
      args := args + [argv[i]];
      i := i + 1;
    }
    assert args == argv;

    cl := map[];
    var j := 0;
    while j < |args|
      invariant 0 <= j <= |args|
      invariant cl == Parse(args[..j])
    {
      var arg := args[j];
      ghost var before := cl;
      ParseOneMore(args, j);
      var isSwitch := StartsWith(arg, SwitchPrefix);
      if isSwitch {
        var parts := Split(arg, '=', 2);
        var key := if |parts| == 2 then parts[0] else arg;
        cl := cl[key := Lookup(cl, key)];
        if |parts| == 2 {
          cl := cl[key := cl[key] + [parts[1]]];
        }
      } else {
        cl := cl["" := Lookup(cl, "") + [arg]];
      }
      assert cl == Step(before, arg);
      j := j + 1;
    }
    assert args[..j] == argv;
    PositionalsInOrder(argv);
    KeysAreSwitchNames(argv);
  }

  /** Reading one more argument is one more `Step`. */
  lemma ParseOneMore(args: seq<string>, j: nat)
    requires j < |args|
    ensures Parse(args[..j + 1]) == Step(Parse(args[..j]), args[j])
  {
    assert args[..j + 1][..j] == args[..j];
  }

  // A reference description of what each argument contributes, independent of the map.

  /** A switch name: begins with `--` and holds no `=`. */
  predicate IsSwitchKey(key: string)
  {
    StartsWith(key, SwitchPrefix) && '=' !in key
  }

  /** The key an argument files under: the empty key when positional, else the text before its first `=` (all of it without one). */
  function KeyOf(arg: string): string
  {
    if !StartsWith(arg, SwitchPrefix) then ""
    else match Find(arg, '=', 0)
      case None => arg
      case Some(p) => arg[..p]
  }

  /** The values an argument adds under its key: itself when positional, the text after its first `=`, or nothing for a bare switch. */
  function ValuesOf(arg: string): seq<string>
  {
    if !StartsWith(arg, SwitchPrefix) then [arg]
    else match Find(arg, '=', 0)
      case None => []
      case Some(p) => [arg[p + 1..]]
  }

  /** Every value the arguments file under `key`, in order of appearance. */
  function ValuesFor(args: seq<string>, key: string): seq<string>
    decreases |args|
  {
    if args == [] then []
    else
      var last := args[|args| - 1];
      ValuesFor(args[..|args| - 1], key) + (if KeyOf(last) == key then ValuesOf(last) else [])
  }

  /** The arguments that do not begin with `--`, in order. */
  function Positionals(args: seq<string>): seq<string>
    decreases |args|
  {
    if args == [] then []
    else
      var last := args[|args| - 1];
      Positionals(args[..|args| - 1]) + (if StartsWith(last, SwitchPrefix) then [] else [last])
  }

  /** How many arguments are switches with an `=`. */
  function ValuedSwitchCount(args: seq<string>): nat
    decreases |args|
  {
    if args == [] then 0
    else
      var last := args[|args| - 1];
      ValuedSwitchCount(args[..|args| - 1]) + (if StartsWith(last, SwitchPrefix) && '=' in last then 1 else 0)
  }

  /** The total number of values a map holds, over all its keys. */
  ghost function SumValues(cl: CommandLine): nat
    decreases |cl|
  {
    if cl == map[] then 0
    else
      var k :| k in cl;
      |cl[k]| + SumValues(cl - {k})
  }

  /** One step of the parser appends `ValuesOf(arg)` under `KeyOf(arg)`, registering that key, and changes nothing else. */
  lemma StepFilesUnderKey(cl: CommandLine, arg: string)
    ensures Step(cl, arg) == cl[KeyOf(arg) := Lookup(cl, KeyOf(arg)) + ValuesOf(arg)]
  {
    if StartsWith(arg, SwitchPrefix) {
      match Find(arg, '=', 0)
      case None =>
        assert Lookup(cl, arg) + [] == Lookup(cl, arg);
      case Some(p) =>
    }
  }

  /** A switch key is a switch name: the text before the first `=` of an argument that begins with `--`. */
  lemma SwitchKeyShape(arg: string)
    requires StartsWith(arg, SwitchPrefix)
    ensures IsSwitchKey(KeyOf(arg))
  {
    match Find(arg, '=', 0)
    case None =>
      assert forall i :: 0 <= i < |arg| ==> arg[i] != '=';
    case Some(p) =>
      assert arg[0] == '-' && arg[1] == '-';
      assert p >= 2;
      var key := arg[..p];
      assert forall i :: 0 <= i < |key| ==> key[i] != '=';
  }

  /** `--name=value`, with `name` a switch name, appends `value` (which may hold more `=`) under `name`. */
  lemma SwitchWithValue(cl: CommandLine, name: string, value: string)
    requires IsSwitchKey(name)
    ensures Step(cl, name + "=" + value) == cl[name := Lookup(cl, name) + [value]]
  {
    var arg := name + "=" + value;
    assert StartsWith(arg, SwitchPrefix) by {
      assert arg[..2] == name[..2];
    }
    assert forall i :: 0 <= i < |name| ==> arg[i] == name[i] != '=';
    assert arg[|name|] == '=';
    assert Find(arg, '=', 0) == Some(|name|);
    assert arg[..|name|] == name && arg[|name| + 1..] == value;
    StepFilesUnderKey(cl, arg);
  }

  /** A bare `--name` registers `name` and keeps the values already filed under it. */
  lemma BareSwitch(cl: CommandLine, name: string)
    requires IsSwitchKey(name)
    ensures Step(cl, name) == cl[name := Lookup(cl, name)]
    ensures name in Step(cl, name) && Step(cl, name)[name] == Lookup(cl, name)
  {
    assert forall i :: 0 <= i < |name| ==> name[i] != '=';
    assert Find(name, '=', 0) == None;
    StepFilesUnderKey(cl, name);
  }

  /** What the parser files under any key is exactly what the arguments contribute to it, in order. */
  lemma {:induction false} ParseLookup(args: seq<string>, key: string)
    ensures Lookup(Parse(args), key) == ValuesFor(args, key)
    decreases |args|
  {
    if args != [] {
      var init, last := args[..|args| - 1], args[|args| - 1];
      ParseLookup(init, key);
      StepFilesUnderKey(Parse(init), last);
    }
  }

  /** A key is in the map exactly when some argument files under it. */
  lemma {:induction false} ParseDomain(args: seq<string>, key: string)
    ensures key in Parse(args) <==> exists i :: 0 <= i < |args| && KeyOf(args[i]) == key
    decreases |args|
  {
    if args != [] {
      var init, last := args[..|args| - 1], args[|args| - 1];
      ParseDomain(init, key);
      StepFilesUnderKey(Parse(init), last);
      assert key in Parse(args) <==> key in Parse(init) || KeyOf(last) == key;
      if key in Parse(args) {
        if KeyOf(last) == key {
          assert KeyOf(args[|args| - 1]) == key;
        } else {
          var i :| 0 <= i < |init| && KeyOf(init[i]) == key;
          assert KeyOf(args[i]) == key;
        }
      } else {
        forall i | 0 <= i < |args|
          ensures KeyOf(args[i]) != key
        {
          if i < |init| {
            assert args[i] == init[i];
          }
        }
      }
    }
  }

  /** Switches never file under the empty key, so it holds exactly the positional arguments. */
  lemma {:induction false} EmptyKeyIsPositionals(args: seq<string>)
    ensures ValuesFor(args, "") == Positionals(args)
    decreases |args|
  {
    if args != [] {
      var last := args[|args| - 1];
      EmptyKeyIsPositionals(args[..|args| - 1]);
      if StartsWith(last, SwitchPrefix) {
        SwitchKeyShape(last);
      }
    }
  }

  /** The positional list holds the arguments that do not begin with `--` in their order, `argv[0]` included under the same rule. */
  lemma PositionalsInOrder(args: seq<string>)
    ensures Lookup(Parse(args), "") == Positionals(args)
  {
    ParseLookup(args, "");
    EmptyKeyIsPositionals(args);
  }

  /** Every key of the map other than the empty one is a switch name. */
  lemma KeysAreSwitchNames(args: seq<string>)
    ensures forall key :: key in Parse(args) ==> key == "" || IsSwitchKey(key)
  {
    forall key | key in Parse(args) && key != ""
      ensures IsSwitchKey(key)
    {
      ParseDomain(args, key);
      var i :| 0 <= i < |args| && KeyOf(args[i]) == key;
      SwitchKeyShape(args[i]);
    }
  }

  /** What more arguments file under a key comes after what earlier ones filed there. */
  lemma {:induction false} ValuesForAppend(args: seq<string>, more: seq<string>, key: string)
    ensures ValuesFor(args + more, key) == ValuesFor(args, key) + ValuesFor(more, key)
    decreases |more|
  {
    if more == [] {
      assert args + more == args;
    } else {
      var init := more[..|more| - 1];
      assert (args + more)[..|args + more| - 1] == args + init;
      assert (args + more)[|args + more| - 1] == more[|more| - 1];
      ValuesForAppend(args, init, key);
    }
  }

  /** Reading more arguments never removes a key and never removes or reorders a value already filed. */
  lemma ValuesAccumulate(args: seq<string>, more: seq<string>, key: string)
    ensures Lookup(Parse(args), key) <= Lookup(Parse(args + more), key)
    ensures key in Parse(args) ==> key in Parse(args + more)
  {
    ParseLookup(args, key);
    ParseLookup(args + more, key);
    ValuesForAppend(args, more, key);
    ParseDomain(args, key);
    ParseDomain(args + more, key);
    if key in Parse(args) {
      var i :| 0 <= i < |args| && KeyOf(args[i]) == key;
      assert (args + more)[i] == args[i];
    }
  }

  /** Taking one key out of a map takes its values out of the total. */
  lemma SumValuesRemove(cl: CommandLine, key: string)
    requires key in cl
    ensures SumValues(cl) == |cl[key]| + SumValues(cl - {key})
    decreases |cl|
  {
    var k :| k in cl && SumValues(cl) == |cl[k]| + SumValues(cl - {k});
    if k != key {
      SumValuesRemove(cl - {k}, key);
      SumValuesRemove(cl - {key}, k);
      assert cl - {k} - {key} == cl - {key} - {k};
    }
  }

  /** Replacing the list under one key changes the total by the difference in length. */
  lemma SumValuesUpdate(cl: CommandLine, key: string, values: seq<string>)
    ensures SumValues(cl[key := values]) + |Lookup(cl, key)| == SumValues(cl) + |values|
  {
    SumValuesRemove(cl[key := values], key);
    if key in cl {
      SumValuesRemove(cl, key);
      assert cl[key := values] - {key} == cl - {key};
    } else {
      assert cl[key := values] - {key} == cl;
    }
  }

  /** The map holds one value per positional argument and one per switch with an `=`, and no others. */
  lemma {:induction false} TotalValues(args: seq<string>)
    ensures SumValues(Parse(args)) == |Positionals(args)| + ValuedSwitchCount(args)
    decreases |args|
  {
    if args == [] {
      assert Parse(args) == map[];
    } else {
      var init, last := args[..|args| - 1], args[|args| - 1];
      TotalValues(init);
      StepFilesUnderKey(Parse(init), last);
      SumValuesUpdate(Parse(init), KeyOf(last), Lookup(Parse(init), KeyOf(last)) + ValuesOf(last));
      if StartsWith(last, SwitchPrefix) {
        match Find(last, '=', 0)
        case None =>
          assert '=' !in last;
        case Some(p) =>
          assert '=' in last;
      }
    }
  }
}
