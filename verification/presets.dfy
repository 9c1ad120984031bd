/** `merge_preset_to_conf` of `clade/utils.py`: a configuration is layered over
    a named preset, which is itself layered over the preset it `extends`. The
    presets table is a parameter instead of a JSON file. */
module Presets {

  import opened Wrappers
  import opened Text

  /** A JSON value as the presets file holds it (numbers are integers here). */
  datatype Json =
    | JNull
    | JBool(b: bool)
    | JNum(n: int)
    | JStr(s: string)
    | JArr(items: seq<Json>)
    | JObj(fields: map<string, Json>)

  type Conf = map<string, Json>

  datatype PresetError =
    | PresetNotFound(name: Json)  // RuntimeError("Preset ... is not found")
    | Unhashable(value: Json)     // TypeError: a list or object used as a preset name
    | RecursionLimit              // RecursionError: the `extends` chain never ends

  /** Python truthiness, which decides `if parent_preset:`. */
  predicate Truthy(v: Json) {
    match v
    case JNull => false
    case JBool(b) => b
    case JNum(n) => n != 0
    case JStr(s) => s != ""
    case JArr(items) => |items| > 0
    case JObj(fields) => |fields| > 0
  }

  /** `preset_conf.get("extends")` */
  function Extends(p: Conf): Json {
    if "extends" in p then p["extends"] else JNull
  }

  /** The parent preset name, when the preset names one with a non-empty string. */
  predicate HasParentName(p: Conf) {
    Truthy(Extends(p)) && Extends(p).JStr?
  }

  /** The recursion, with `fuel` counting the calls still allowed. */
  function MergeFuel(presets: map<string, Conf>, name: string, conf: Conf, fuel: nat): Result<Conf, PresetError>
    decreases fuel
  {
    if name !in presets then Failure(PresetNotFound(JStr(name)))
    else if fuel == 0 then Failure(RecursionLimit)
    else
      var preset := presets[name];
      var parent := Extends(preset);
      if !Truthy(parent) then Success(preset + conf)
      else match parent
        case JStr(p) =>
          var base :- MergeFuel(presets, p, preset, fuel - 1);
          Success(base + conf)
        case JArr(_) => Failure(Unhashable(parent))
        case JObj(_) => Failure(Unhashable(parent))
        case _ => Failure(PresetNotFound(parent))
  }

  // ---------------------------------------------------------------------------
  // Reference definition: a stack of layers, the first one that has a key wins.

  /** The presets on the `extends` chain of `name`, most derived first. */
  function Layers(presets: map<string, Conf>, name: string, fuel: nat): seq<Conf>
    decreases fuel
  {
    if name !in presets || fuel == 0 then []
    else
      var p := presets[name];
      [p] + (if HasParentName(p) then Layers(presets, Extends(p).s, fuel - 1) else [])
  }

  /** The preset names on the `extends` chain of `name` that the table holds. */
  function ChainNames(presets: map<string, Conf>, name: string, n: nat): (r: seq<string>)
    ensures forall x :: x in r ==> x in presets
    ensures |r| <= n
    decreases n
  {
    if name !in presets || n == 0 then []
    else
      var p := presets[name];
      [name] + (if HasParentName(p) then ChainNames(presets, Extends(p).s, n - 1) else [])
  }

  function KeysOf(layers: seq<Conf>): set<string> {
    if |layers| == 0 then {} else layers[0].Keys + KeysOf(layers[1..])
  }

  /** The value of `k` in the first layer that has it. */
  function FirstValue(layers: seq<Conf>, k: string): Json
    requires k in KeysOf(layers)
  {
    if k in layers[0] then layers[0][k] else FirstValue(layers[1..], k)
  }

  function Resolve(layers: seq<Conf>): Conf {
    map k | k in KeysOf(layers) :: FirstValue(layers, k)
  }

  lemma ResolveCons(a: Conf, rest: seq<Conf>)
    ensures Resolve([a] + rest) == Resolve(rest) + a
  {
    var l := [a] + rest;
    assert l[0] == a && l[1..] == rest;
  }

  /** In a stack of layers, the first layer wins, and the second wins over
      everything below it. */
  lemma ResolveFirstTwo(a: Conf, b: Conf, rest: seq<Conf>)
    ensures forall k :: k in a ==> k in Resolve([a] + ([b] + rest)) && Resolve([a] + ([b] + rest))[k] == a[k]
    ensures forall k :: k in b && k !in a ==> k in Resolve([a] + ([b] + rest)) && Resolve([a] + ([b] + rest))[k] == b[k]
  {
    ResolveCons(b, rest);
    ResolveCons(a, [b] + rest);
  }

  lemma {:induction false} MergeIsLayered(presets: map<string, Conf>, name: string, conf: Conf, fuel: nat)
    requires MergeFuel(presets, name, conf, fuel).Success?
    ensures MergeFuel(presets, name, conf, fuel).value == Resolve([conf] + Layers(presets, name, fuel))
    decreases fuel
  {
    var preset := presets[name];
    var parent := Extends(preset);
    if !Truthy(parent) {
      assert Layers(presets, name, fuel) == [preset];
      assert Resolve([conf] + [preset]) == preset + conf by {
        ResolveCons(preset, []);
        ResolveCons(conf, [preset]);
        assert Resolve([]) == map[];
        assert [preset] + [] == [preset];
      }
    } else {
      var p := parent.s;
      var up := Layers(presets, p, fuel - 1);
      assert Layers(presets, name, fuel) == [preset] + up;
      assert MergeFuel(presets, name, conf, fuel).value == MergeFuel(presets, p, preset, fuel - 1).value + conf;
      MergeIsLayered(presets, p, preset, fuel - 1);
      ResolveCons(conf, [preset] + up);
    }
  }

  /** Running out of calls happens only on a cyclic chain: the chain then
      repeats a preset name. */
  lemma {:induction false} RecursionLimitChain(presets: map<string, Conf>, name: string, conf: Conf, fuel: nat)
    requires MergeFuel(presets, name, conf, fuel) == Failure(RecursionLimit)
    ensures |ChainNames(presets, name, fuel + 1)| == fuel + 1
    decreases fuel
  {
    if fuel > 0 {
      var preset := presets[name];
      RecursionLimitChain(presets, Extends(preset).s, preset, fuel - 1);
    }
  }

  /** Conversely, a chain that uses up every call runs out of calls. */
  lemma {:induction false} FullChainLimit(presets: map<string, Conf>, name: string, conf: Conf, fuel: nat)
    requires |ChainNames(presets, name, fuel + 1)| == fuel + 1
    ensures MergeFuel(presets, name, conf, fuel) == Failure(RecursionLimit)
    decreases fuel
  {
    assert name in presets;
    var preset := presets[name];
    if fuel > 0 {
      assert HasParentName(preset);
      var p := Extends(preset).s;
      assert Extends(preset) == JStr(p);
      assert ChainNames(presets, name, fuel + 1) == [name] + ChainNames(presets, p, fuel);
      FullChainLimit(presets, p, preset, fuel - 1);
    }
  }

  /** Once a chain stops short of its budget, a larger budget changes nothing. */
  lemma {:induction false} ChainStable(presets: map<string, Conf>, name: string, a: nat, b: nat)
    requires a <= b && |ChainNames(presets, name, a)| < a
    ensures ChainNames(presets, name, b) == ChainNames(presets, name, a)
    decreases a
  {
    if name in presets && HasParentName(presets[name]) {
      var p := Extends(presets[name]).s;
      assert ChainNames(presets, name, a) == [name] + ChainNames(presets, p, a - 1);
      ChainStable(presets, p, a - 1, b - 1);
      assert ChainNames(presets, name, b) == [name] + ChainNames(presets, p, b - 1);
    }
  }

  /** A chain longer than one preset continues with the parent's chain. */
  lemma ChainStep(presets: map<string, Conf>, name: string, n: nat)
    requires |ChainNames(presets, name, n)| > 1
    ensures name in presets && n > 0 && HasParentName(presets[name])
    ensures ChainNames(presets, name, n) == [name] + ChainNames(presets, Extends(presets[name]).s, n - 1)
  {
  }

  /** The chain from its `i`-th member is the rest of the chain. */
  lemma {:induction false} ChainSuffix(presets: map<string, Conf>, name: string, n: nat, i: nat)
    requires i < |ChainNames(presets, name, n)|
    ensures var c := ChainNames(presets, name, n);
            c[i..] == ChainNames(presets, c[i], n - i)
    decreases i
  {
    var c := ChainNames(presets, name, n);
    if i == 0 {
      assert name in presets && c[0] == name;
      assert c[0..] == c;
    } else {
      ChainStep(presets, name, n);
      var up := ChainNames(presets, Extends(presets[name]).s, n - 1);
      ChainSuffix(presets, Extends(presets[name]).s, n - 1, i - 1);
      assert c[i..] == up[i - 1..] && c[i] == up[i - 1];
    }
  }

  /** The chain from its `i`-th member has the rest of the chain's length. */
  lemma ChainSuffixLength(presets: map<string, Conf>, name: string, n: nat, i: nat)
    requires i < |ChainNames(presets, name, n)|
    ensures |ChainNames(presets, ChainNames(presets, name, n)[i], n - i)| == |ChainNames(presets, name, n)| - i
  {
    ChainSuffix(presets, name, n, i);
  }

  /** A chain that repeats a preset is cyclic, so it uses up its whole budget. */
  lemma RepeatFillsChain(presets: map<string, Conf>, name: string, n: nat)
    requires !NoDup(ChainNames(presets, name, n))
    ensures |ChainNames(presets, name, n)| == n
  {
    var c := ChainNames(presets, name, n);
    var i, j :| 0 <= i < j < |c| && c[i] == c[j];
    if |c| < n {
      var y := c[i];
      var short := ChainNames(presets, y, n - j);
      var long := ChainNames(presets, y, n - i);
      assert |long| == |c| - i by {
        ChainSuffixLength(presets, name, n, i);
      }
      assert |short| == |c| - j by {
        ChainSuffixLength(presets, name, n, j);
      }
      ChainStable(presets, y, n - j, n - i);
      assert false;
    }
  }

  /** The recursion runs out of calls exactly when the chain repeats a preset. */
  lemma MergeLimitIffCyclic(presets: map<string, Conf>, name: string, conf: Conf)
    ensures MergeFuel(presets, name, conf, |presets|) == Failure(RecursionLimit)
            <==> !NoDup(ChainNames(presets, name, |presets| + 1))
  {
    var names := ChainNames(presets, name, |presets| + 1);
    if MergeFuel(presets, name, conf, |presets|) == Failure(RecursionLimit) {
      RecursionLimitChain(presets, name, conf, |presets|);
      assert Elems(names) <= presets.Keys;
      RepeatExists(names, presets.Keys);
    }
    if !NoDup(names) {
      RepeatFillsChain(presets, name, |presets| + 1);
      FullChainLimit(presets, name, conf, |presets|);
    }
  }

  /** A successful merge is the configuration over the chain's layers; the
      configuration and then the named preset win. */
  lemma MergeSuccessShape(presets: map<string, Conf>, name: string, conf: Conf)
    requires MergeFuel(presets, name, conf, |presets|).Success?
    ensures var v := MergeFuel(presets, name, conf, |presets|).value;
            && v == Resolve([conf] + Layers(presets, name, |presets|))
            && v.Keys == conf.Keys + KeysOf(Layers(presets, name, |presets|))
            && (forall k :: k in conf ==> k in v && v[k] == conf[k])
            && name in presets
            && (forall k :: k in presets[name] && k !in conf ==> k in v && v[k] == presets[name][k])
  {
    MergeIsLayered(presets, name, conf, |presets|);
    assert |presets| > 0 by {
      assert name in presets.Keys;
    }
    var rest := Layers(presets, name, |presets|)[1..];
    assert Layers(presets, name, |presets|) == [presets[name]] + rest;
    ResolveFirstTwo(conf, presets[name], rest);
    assert KeysOf([conf] + Layers(presets, name, |presets|)) == conf.Keys + KeysOf(Layers(presets, name, |presets|)) by {
      var l := [conf] + Layers(presets, name, |presets|);
      assert l[1..] == Layers(presets, name, |presets|);
    }
  }

  /** `merge_preset_to_conf(preset_name, conf)`. Python's recursion depth is
      modelled by allowing as many calls as there are presets, which every
      acyclic chain stays within. */
  function MergePresetToConf(presets: map<string, Conf>, name: string, conf: Conf): (r: Result<Conf, PresetError>)
    ensures name !in presets ==> r == Failure(PresetNotFound(JStr(name)))
    ensures r.Success? ==> r.value == Resolve([conf] + Layers(presets, name, |presets|))
    ensures r.Success? ==> r.value.Keys == conf.Keys + KeysOf(Layers(presets, name, |presets|))
    ensures r.Success? ==> forall k :: k in conf ==> k in r.value && r.value[k] == conf[k]
    ensures r.Success? ==> name in presets && forall k :: k in presets[name] && k !in conf ==>
              k in r.value && r.value[k] == presets[name][k]
    ensures r == Failure(RecursionLimit) ==> !NoDup(ChainNames(presets, name, |presets| + 1))
    ensures !NoDup(ChainNames(presets, name, |presets| + 1)) ==> r == Failure(RecursionLimit)
  {
    var r := MergeFuel(presets, name, conf, |presets|);
    MergeLimitIffCyclic(presets, name, conf);
    if r.Success? then
      MergeSuccessShape(presets, name, conf);
      r
    else
      r
  }

  /** A preset without `extends` is exactly updated with `conf`. */
  lemma MergeWithoutParent(presets: map<string, Conf>, name: string, conf: Conf)
    requires name in presets && !Truthy(Extends(presets[name]))
    ensures MergePresetToConf(presets, name, conf) == Success(presets[name] + conf)
  {
    assert |presets| > 0 by {
      assert name in presets.Keys;
    }
  }

  /** The chain stops at a preset whose `extends` names a preset the table
      lacks: the whole recursion fails on that name. */
  predicate EndsInMissingName(presets: map<string, Conf>, chain: seq<string>) {
    && |chain| > 0
    && chain[|chain| - 1] in presets
    && HasParentName(presets[chain[|chain| - 1]])
    && Extends(presets[chain[|chain| - 1]]).s !in presets
  }

  lemma {:induction false} MergeFuelMissingName(presets: map<string, Conf>, name: string, conf: Conf, fuel: nat)
    requires EndsInMissingName(presets, ChainNames(presets, name, fuel))
    ensures var c := ChainNames(presets, name, fuel);
            MergeFuel(presets, name, conf, fuel) == Failure(PresetNotFound(Extends(presets[c[|c| - 1]])))
    decreases fuel
  {
    var c := ChainNames(presets, name, fuel);
    if |c| == 1 {
      assert name in presets && fuel > 0 && c[0] == name;
      var p := Extends(presets[name]).s;
      assert Extends(presets[name]) == JStr(p) && p !in presets;
    } else {
      ChainStep(presets, name, fuel);
      var p := Extends(presets[name]).s;
      var up := ChainNames(presets, p, fuel - 1);
      assert c[|c| - 1] == up[|up| - 1];
      MergeFuelMissingName(presets, p, presets[name], fuel - 1);
      assert Extends(presets[name]) == JStr(p);
    }
  }

  /** A name reached through `extends`, at any depth, that the table lacks
      fails like an unknown top-level name, naming the missing preset. */
  lemma MergeUnknownParent(presets: map<string, Conf>, name: string, conf: Conf)
    requires EndsInMissingName(presets, ChainNames(presets, name, |presets|))
    ensures var c := ChainNames(presets, name, |presets|);
            MergePresetToConf(presets, name, conf) == Failure(PresetNotFound(Extends(presets[c[|c| - 1]])))
  {
    MergeFuelMissingName(presets, name, conf, |presets|);
  }

  /** The error a truthy `extends` that is not a string raises: a list or an
      object cannot be looked up in the table (TypeError), any other value is
      not found in it. */
  function NonStringParentError(v: Json): PresetError {
    if v.JArr? || v.JObj? then Unhashable(v) else PresetNotFound(v)
  }

  /** The chain stops at a preset whose `extends` is truthy but not a string. */
  predicate EndsInNonStringParent(presets: map<string, Conf>, chain: seq<string>) {
    && |chain| > 0
    && chain[|chain| - 1] in presets
    && Truthy(Extends(presets[chain[|chain| - 1]]))
    && !Extends(presets[chain[|chain| - 1]]).JStr?
  }

  lemma {:induction false} MergeFuelNonStringParent(presets: map<string, Conf>, name: string, conf: Conf, fuel: nat)
    requires EndsInNonStringParent(presets, ChainNames(presets, name, fuel))
    ensures var c := ChainNames(presets, name, fuel);
            MergeFuel(presets, name, conf, fuel) == Failure(NonStringParentError(Extends(presets[c[|c| - 1]])))
    decreases fuel
  {
    var c := ChainNames(presets, name, fuel);
    var preset := presets[name];
    if HasParentName(preset) {
      var p := Extends(preset).s;
      assert Extends(preset) == JStr(p);
      var up := ChainNames(presets, p, fuel - 1);
      assert c == [name] + up;
      assert c[|c| - 1] == if |up| == 0 then name else up[|up| - 1];
      MergeFuelNonStringParent(presets, p, preset, fuel - 1);
    } else {
      assert c == [name];
    }
  }

  /** An `extends`, at any depth of the chain, that is truthy but not a
      string fails: with TypeError for a list or an object, and as an unknown
      preset for a number or `true`. */
  lemma MergeNonStringParent(presets: map<string, Conf>, name: string, conf: Conf)
    requires EndsInNonStringParent(presets, ChainNames(presets, name, |presets|))
    ensures var c := ChainNames(presets, name, |presets|);
            MergePresetToConf(presets, name, conf) == Failure(NonStringParentError(Extends(presets[c[|c| - 1]])))
  {
    MergeFuelNonStringParent(presets, name, conf, |presets|);
  }

  /** Every truthy `extends` on the chain is a preset name (a string). */
  predicate StringParents(presets: map<string, Conf>, chain: seq<string>)
    requires forall x :: x in chain ==> x in presets
  {
    forall n :: n in chain ==> !Truthy(Extends(presets[n])) || HasParentName(presets[n])
  }

  /** The chain ends at a preset that names no parent. */
  predicate EndsWithoutParent(presets: map<string, Conf>, chain: seq<string>) {
    && |chain| > 0
    && chain[|chain| - 1] in presets
    && !HasParentName(presets[chain[|chain| - 1]])
  }

  /** The chain below a preset that names its parent is the parent's chain. */
  lemma ChainTail(presets: map<string, Conf>, name: string, fuel: nat)
    requires name in presets && fuel > 0 && HasParentName(presets[name])
    requires StringParents(presets, ChainNames(presets, name, fuel))
    requires EndsWithoutParent(presets, ChainNames(presets, name, fuel))
    ensures StringParents(presets, ChainNames(presets, Extends(presets[name]).s, fuel - 1))
    ensures EndsWithoutParent(presets, ChainNames(presets, Extends(presets[name]).s, fuel - 1))
  {
    var c := ChainNames(presets, name, fuel);
    var up := ChainNames(presets, Extends(presets[name]).s, fuel - 1);
    assert c == [name] + up;
    assert forall x :: x in up ==> x in c;
    assert c[|c| - 1] == if |up| == 0 then name else up[|up| - 1];
  }

  /** With enough calls, a chain of string parents that ends at a preset
      without a parent merges successfully. */
  lemma {:induction false} MergeFuelSucceeds(presets: map<string, Conf>, name: string, conf: Conf, fuel: nat)
    requires StringParents(presets, ChainNames(presets, name, fuel))
    requires EndsWithoutParent(presets, ChainNames(presets, name, fuel))
    ensures MergeFuel(presets, name, conf, fuel).Success?
    decreases fuel
  {
    var c := ChainNames(presets, name, fuel);
    assert name in presets && fuel > 0 && c[0] == name;
    var preset := presets[name];
    if Truthy(Extends(preset)) {
      assert HasParentName(preset) by {
        assert name in c;
      }
      ChainTail(presets, name, fuel);
      MergeFuelSucceeds(presets, Extends(preset).s, preset, fuel - 1);
    }
  }

  /** A chain that stops before its call budget `n + 1` is used up stops on
      its own: the budget `n` gives the same chain, and its last preset has no
      parent name or names a preset the table lacks. */
  lemma {:induction false} ChainStops(presets: map<string, Conf>, name: string, n: nat)
    requires |ChainNames(presets, name, n + 1)| <= n
    ensures ChainNames(presets, name, n) == ChainNames(presets, name, n + 1)
    ensures var c := ChainNames(presets, name, n);
            |c| > 0 ==> !HasParentName(presets[c[|c| - 1]]) || Extends(presets[c[|c| - 1]]).s !in presets
    decreases n
  {
    if name in presets && HasParentName(presets[name]) {
      var p := Extends(presets[name]).s;
      var up := ChainNames(presets, p, n);
      assert ChainNames(presets, name, n + 1) == [name] + up;
      ChainStops(presets, p, n - 1);
      assert ChainNames(presets, name, n) == [name] + ChainNames(presets, p, n - 1);
    }
  }

  /** The merge succeeds when every preset on the `extends` chain is in the
      table, every truthy `extends` is a string, and the chain does not
      repeat a preset. */
  lemma MergeSucceeds(presets: map<string, Conf>, name: string, conf: Conf)
    requires name in presets
    requires NoDup(ChainNames(presets, name, |presets| + 1))
    requires !EndsInMissingName(presets, ChainNames(presets, name, |presets|))
    requires StringParents(presets, ChainNames(presets, name, |presets|))
    ensures MergePresetToConf(presets, name, conf).Success?
  {
    var c := ChainNames(presets, name, |presets| + 1);
    assert |c| <= |presets| by {
      if |c| > |presets| {
        assert Elems(c) <= presets.Keys;
        RepeatExists(c, presets.Keys);
      }
    }
    ChainStops(presets, name, |presets|);
    assert |presets| > 0 by {
      assert name in presets.Keys;
    }
    MergeFuelSucceeds(presets, name, conf, |presets|);
  }

  /** A preset's own entries override those of the preset it extends, and
      both give way to `conf`. */
  lemma PresetOverridesParent(presets: map<string, Conf>, name: string, conf: Conf)
    requires MergePresetToConf(presets, name, conf).Success?
    requires HasParentName(presets[name])
    ensures Extends(presets[name]).s in presets
    ensures forall k :: k in presets[Extends(presets[name]).s] ==> k in MergePresetToConf(presets, name, conf).value
    ensures forall k :: k in presets[Extends(presets[name]).s] && k !in presets[name] && k !in conf ==>
              MergePresetToConf(presets, name, conf).value[k] == presets[Extends(presets[name]).s][k]
  {
    var n := |presets|;
    assert n > 0 by {
      assert name in presets.Keys;
    }
    var parent := Extends(presets[name]);
    var p := parent.s;
    assert parent == JStr(p);
    var base := MergeFuel(presets, p, presets[name], n - 1);
    assert base.Success?;
    assert p in presets;
    assert MergePresetToConf(presets, name, conf).value == base.value + conf;
    assert n - 1 > 0;
    var rest := Layers(presets, p, n - 1)[1..];
    assert Layers(presets, p, n - 1) == [presets[p]] + rest;
    MergeIsLayered(presets, p, presets[name], n - 1);
    ResolveFirstTwo(presets[name], presets[p], rest);
  }
}
