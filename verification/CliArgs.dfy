/** The command line's argument loop: flags by name, --no- for booleans, the rest by position. */
module CliArgs {
  import Decimal
  import opened Collections

  /** Declared parameter types; objects and arrays arrive as text, as undeclared ones do. */
  datatype ParamType = Text | Number | Boolean | Structured

  /** A parameter's value, over whatever numbers Number produces. */
  datatype Value<N> = Str(text: string) | Num(n: N) | Flag(on: bool)

  /** Number(text), and the text a number is printed as. */
  datatype Numbers<!N> = Numbers(number: string -> N, show: N -> string)

  datatype Operation = Operation(params: map<string, ParamType>, positional: seq<string>)

  predicate Is(op: Operation, key: string, t: ParamType) {
    key in op.params && op.params[key] == t
  }

  /** replace(/-/g, '_') */
  function Under(s: string): (r: string)
    ensures |r| == |s| && forall i :: 0 <= i < |s| ==> r[i] == if s[i] == '-' then '_' else s[i]
  {
    if s == [] then [] else [if s[0] == '-' then '_' else s[0]] + Under(s[1..])
  }

  /** How a parameter name is written as a flag. */
  function Dash(s: string): (r: string)
    ensures |r| == |s| && forall i :: 0 <= i < |s| ==> r[i] == if s[i] == '_' then '-' else s[i]
  {
    if s == [] then [] else [if s[0] == '_' then '-' else s[0]] + Dash(s[1..])
  }

  function Convert<N>(op: Operation, nums: Numbers<N>, key: string, text: string): Value<N> {
    if Is(op, key, Number) then Num(nums.number(text)) else Str(text)
  }

  /** The parameter a --no- argument switches off. */
  function Negated(op: Operation, arg: string): Option<string> {
    if "--no-" <= arg && Is(op, Under(arg[5..]), Boolean) then Some(Under(arg[5..])) else None
  }

  function Parse<N>(op: Operation, nums: Numbers<N>, args: seq<string>, posIdx: nat, params: map<string, Value<N>>):
    map<string, Value<N>>
    decreases |args|
  {
    if args == [] then params
    else
      var arg := args[0];
      if "--" <= arg then
        var off := Negated(op, arg);
        if off.Some? then Parse(op, nums, args[1..], posIdx, params[off.value := Flag(false)])
        else
          var key := Under(arg[2..]);
          if Is(op, key, Boolean) then Parse(op, nums, args[1..], posIdx, params[key := Flag(true)])
          else if |args| > 1 then
            Parse(op, nums, args[2..], posIdx, params[key := Convert(op, nums, key, args[1])])
          else params
      else if posIdx < |op.positional| then
        var key := op.positional[posIdx];
        Parse(op, nums, args[1..], posIdx + 1, params[key := Convert(op, nums, key, arg)])
      else Parse(op, nums, args[1..], posIdx, params)
  }

  method ParseOpArgs<N>(op: Operation, nums: Numbers<N>, args: seq<string>) returns (params: map<string, Value<N>>)
    ensures params == Parse(op, nums, args, 0, map[])
  {
    params := map[];
    var posIdx, i := 0, 0;
    while i < |args|
      invariant 0 <= i <= |args|
      invariant Parse(op, nums, args, 0, map[]) == Parse(op, nums, args[i..], posIdx, params)
      decreases |args| - i
    {
      var arg := args[i];
      ghost var rest := args[i..];
      assert rest[0] == arg && rest[1..] == args[i + 1..];
      if "--" <= arg {
        var off := Negated(op, arg);
        if off.Some? {
          params := params[off.value := Flag(false)];
          i := i + 1;
          continue;
        }
        var key := Under(arg[2..]);
        if Is(op, key, Boolean) {
          params := params[key := Flag(true)];
        } else if i + 1 < |args| {
          i := i + 1;
          assert rest[2..] == args[i + 1..];
          params := params[key := Convert(op, nums, key, args[i])];
        }
      } else if posIdx < |op.positional| {
        var key := op.positional[posIdx];
        posIdx := posIdx + 1;
        params := params[key := Convert(op, nums, key, arg)];
      }
      i := i + 1;
    }
  }

  /** One thing to say on the command line: the next positional value, a flag with a value, a boolean set or unset. */
  datatype Item<N> =
    Positional(value: Value<N>) | Named(key: string, value: Value<N>) | On(key: string) | Off(key: string)

  /** What stands for a value on the command line. */
  function Shown<N>(v: Value<N>, nums: Numbers<N>): string {
    match v
    case Str(s) => s
    case Num(n) => nums.show(n)
    case Flag(on) => if on then "true" else "false"
  }

  function Print<N>(it: Item<N>, nums: Numbers<N>): seq<string> {
    match it
    case Positional(v) => [Shown(v, nums)]
    case Named(k, v) => ["--" + Dash(k), Shown(v, nums)]
    case On(k) => ["--" + Dash(k)]
    case Off(k) => ["--no-" + Dash(k)]
  }

  function PrintAll<N>(its: seq<Item<N>>, nums: Numbers<N>): seq<string> {
    if its == [] then [] else Print(its[0], nums) + PrintAll(its[1..], nums)
  }

  /** A name that the --no- form of a declared boolean would take over. */
  predicate Captured(op: Operation, key: string) {
    "no_" <= key && Is(op, key[3..], Boolean)
  }

  predicate Typed<N>(op: Operation, key: string, v: Value<N>) {
    !v.Flag? && (v.Num? <==> Is(op, key, Number))
  }

  /** A number's text reads back as the number. */
  ghost predicate Legible<N>(v: Value<N>, nums: Numbers<N>) {
    v.Num? ==> nums.number(nums.show(v.n)) == v.n
  }

  /** The conditions on one item except that its flag is not captured. */
  ghost predicate WellTyped<N>(op: Operation, it: Item<N>, posIdx: nat, nums: Numbers<N>) {
    match it
    case Positional(v) =>
      posIdx < |op.positional| && Typed(op, op.positional[posIdx], v) && Legible(v, nums) && !("--" <= Shown(v, nums))
    case Named(k, v) => '-' !in k && !Is(op, k, Boolean) && Typed(op, k, v) && Legible(v, nums)
    case On(k) => '-' !in k && Is(op, k, Boolean)
    case Off(k) => '-' !in k && Is(op, k, Boolean)
  }

  predicate Free<N>(op: Operation, it: Item<N>) {
    it.Named? || it.On? ==> !Captured(op, it.key)
  }

  function KeyOf<N>(op: Operation, it: Item<N>, posIdx: nat): string
    requires it.Positional? ==> posIdx < |op.positional|
  {
    if it.Positional? then op.positional[posIdx] else it.key
  }

  function ValueOf<N>(it: Item<N>): Value<N> {
    match it
    case Positional(v) => v
    case Named(_, v) => v
    case On(_) => Flag(true)
    case Off(_) => Flag(false)
  }

  function After<N>(it: Item<N>, posIdx: nat): nat {
    if it.Positional? then posIdx + 1 else posIdx
  }

  ghost predicate WellFormed<N>(op: Operation, its: seq<Item<N>>, posIdx: nat, nums: Numbers<N>) {
    its == [] ||
    (WellTyped(op, its[0], posIdx, nums) && Free(op, its[0]) && WellFormed(op, its[1..], After(its[0], posIdx), nums))
  }

  /** The parameters an item list stands for, a later item for the same key winning. */
  ghost function Meaning<N>(op: Operation, its: seq<Item<N>>, posIdx: nat,
      params: map<string, Value<N>>, nums: Numbers<N>): map<string, Value<N>>
    requires WellFormed(op, its, posIdx, nums)
  {
    if its == [] then params
    else
      Meaning(op, its[1..], After(its[0], posIdx), params[KeyOf(op, its[0], posIdx) := ValueOf(its[0])], nums)
  }

  lemma DashUnder(k: string, prefix: string)
    requires '-' !in k
    ensures Under((prefix + Dash(k))[|prefix|..]) == k
  {
    assert (prefix + Dash(k))[|prefix|..] == Dash(k);
  }

  lemma NegatedFlag(op: Operation, k: string)
    requires '-' !in k
    ensures Negated(op, "--" + Dash(k)) == if Captured(op, k) then Some(k[3..]) else None
    ensures "--" <= "--" + Dash(k)
  {
    hide Dash, Under;
    NoPrefix(k);
    NoFlag(Dash(k));
  }

  lemma NoFlag(d: string)
    ensures "--" <= "--" + d
    ensures "--no-" <= "--" + d <==> "no-" <= d
    ensures "no-" <= d ==> ("--" + d)[5..] == d[3..]
  {
    var arg := "--" + d;
    assert arg[..2] == "--" && arg[2..] == d;
    if "--no-" <= arg {
      assert d[..3] == arg[2..5] == "no-";
    }
    if "no-" <= d {
      assert arg[..5] == "--" + d[..3];
    }
  }

  lemma NoPrefix(k: string)
    requires '-' !in k
    ensures "no-" <= Dash(k) <==> "no_" <= k
    ensures "no_" <= k ==> Under(Dash(k)[3..]) == k[3..]
  {
    var d := Dash(k);
    if "no-" <= d {
      assert d[0] == 'n' && d[1] == 'o' && d[2] == '-';
      assert k[..3] == "no_";
    }
    if "no_" <= k {
      assert k[0] == 'n' && k[1] == 'o' && k[2] == '_';
      assert d[..3] == "no-";
    }
  }

  lemma NegatedOff(op: Operation, k: string)
    requires '-' !in k && Is(op, k, Boolean)
    ensures Negated(op, "--no-" + Dash(k)) == Some(k) && "--" <= "--no-" + Dash(k)
  {
    DashUnder(k, "--no-");
    assert ("--no-" + Dash(k))[..2] == "--";
  }

  /**
   One printed item is parsed as that item, whatever follows it: in particular a flag's value may look
   like a flag.
   */
  lemma ParseItem<N>(op: Operation, nums: Numbers<N>, it: Item<N>, rest: seq<string>, posIdx: nat,
      params: map<string, Value<N>>)
    requires WellTyped(op, it, posIdx, nums) && Free(op, it)
    ensures Parse(op, nums, Print(it, nums) + rest, posIdx, params)
         == Parse(op, nums, rest, After(it, posIdx), params[KeyOf(op, it, posIdx) := ValueOf(it)])
  {
    hide Negated, Captured, Under, Dash;
    var args := Print(it, nums) + rest;
    match it
    case Positional(v) =>
      assert args[1..] == rest;
    case Named(k, v) =>
      NegatedFlag(op, k);
      DashUnder(k, "--");
      assert args[0] == "--" + Dash(k) && args[1] == Shown(v, nums) && args[2..] == rest;
    case On(k) =>
      NegatedFlag(op, k);
      DashUnder(k, "--");
      assert args[0] == "--" + Dash(k) && args[1..] == rest;
    case Off(k) =>
      NegatedOff(op, k);
      assert args[0] == "--no-" + Dash(k) && args[1..] == rest;
  }

  /** Parsing what was printed gives the parameters back. */
  lemma {:induction false} ParseInvertsPrint<N>(op: Operation, nums: Numbers<N>, its: seq<Item<N>>,
      posIdx: nat, params: map<string, Value<N>>)
    requires WellFormed(op, its, posIdx, nums)
    ensures Parse(op, nums, PrintAll(its, nums), posIdx, params) == Meaning(op, its, posIdx, params, nums)
  {
    hide Print, Free;
    if its != [] {
      ParseItem(op, nums, its[0], PrintAll(its[1..], nums), posIdx, params);
      ParseInvertsPrint(op, nums, its[1..], After(its[0], posIdx),
        params[KeyOf(op, its[0], posIdx) := ValueOf(its[0])]);
    }
  }

  function EndIdx<N>(its: seq<Item<N>>, posIdx: nat): nat {
    if its == [] then posIdx else EndIdx(its[1..], After(its[0], posIdx))
  }

  /** A printed item list is parsed as its items whatever follows it; the rest is parsed from there. */
  lemma {:induction false} ParseGoesOn<N>(op: Operation, nums: Numbers<N>, its: seq<Item<N>>, rest: seq<string>,
      posIdx: nat, params: map<string, Value<N>>)
    requires WellFormed(op, its, posIdx, nums)
    ensures Parse(op, nums, PrintAll(its, nums) + rest, posIdx, params)
         == Parse(op, nums, rest, EndIdx(its, posIdx), Meaning(op, its, posIdx, params, nums))
  {
    hide Print, Free, Parse, KeyOf, ValueOf;
    if its == [] {
      assert PrintAll(its, nums) + rest == rest;
    } else {
      var more := PrintAll(its[1..], nums) + rest;
      Regroup(Print(its[0], nums), PrintAll(its[1..], nums), rest);
      ParseItem(op, nums, its[0], more, posIdx, params);
      ParseGoesOn(op, nums, its[1..], rest, After(its[0], posIdx),
        params[KeyOf(op, its[0], posIdx) := ValueOf(its[0])]);
    }
  }

  /** A word too many is passed over: what stands before and after it is parsed as if it were not there. */
  lemma SurplusIsSkipped<N>(op: Operation, nums: Numbers<N>, its: seq<Item<N>>, word: string, rest: seq<string>)
    requires WellFormed(op, its, 0, nums) && EndIdx(its, 0) >= |op.positional| && !("--" <= word)
    ensures Parse(op, nums, PrintAll(its, nums) + ([word] + rest), 0, map[])
         == Parse(op, nums, PrintAll(its, nums) + rest, 0, map[])
  {
    ParseGoesOn(op, nums, its, [word] + rest, 0, map[]);
    ParseGoesOn(op, nums, its, rest, 0, map[]);
    assert ([word] + rest)[1..] == rest;
  }

  /** A flag that needs a value and stands last is dropped. */
  lemma DanglingFlagIsDropped<N>(op: Operation, nums: Numbers<N>, its: seq<Item<N>>, k: string)
    requires WellFormed(op, its, 0, nums) && '-' !in k && !Is(op, k, Boolean) && !Captured(op, k)
    ensures Parse(op, nums, PrintAll(its, nums) + ["--" + Dash(k)], 0, map[])
         == Parse(op, nums, PrintAll(its, nums), 0, map[])
  {
    hide Negated, Captured;
    var arg := "--" + Dash(k);
    ParseGoesOn(op, nums, its, [arg], 0, map[]);
    ParseGoesOn(op, nums, its, [], 0, map[]);
    assert PrintAll(its, nums) + [] == PrintAll(its, nums);
    NegatedFlag(op, k);
    DashUnder(k, "--");
  }

  /** The keys of an item list, positional ones by their turn. */
  ghost function Keys<N>(op: Operation, its: seq<Item<N>>, posIdx: nat, nums: Numbers<N>): seq<string>
    requires WellFormed(op, its, posIdx, nums)
    ensures |Keys(op, its, posIdx, nums)| == |its|
  {
    if its == [] then [] else [KeyOf(op, its[0], posIdx)] + Keys(op, its[1..], After(its[0], posIdx), nums)
  }

  /** The items say the given parameters: each key once, in any order, with its value. */
  ghost predicate Says<N>(op: Operation, its: seq<Item<N>>, wanted: map<string, Value<N>>, nums: Numbers<N>)
    requires WellFormed(op, its, 0, nums)
  {
    var keys := Keys(op, its, 0, nums);
    && (forall k :: k in wanted <==> k in keys)
    && Distinct(keys)
    && (forall i :: 0 <= i < |keys| ==> keys[i] in wanted && wanted[keys[i]] == ValueOf(its[i]))
  }

  /** A key no item names keeps the value it had. */
  lemma {:induction false} MeaningElsewhere<N>(op: Operation, its: seq<Item<N>>, posIdx: nat,
      params: map<string, Value<N>>, nums: Numbers<N>, k: string)
    requires WellFormed(op, its, posIdx, nums) && k !in Keys(op, its, posIdx, nums)
    ensures var m := Meaning(op, its, posIdx, params, nums);
      (k in m <==> k in params) && (k in m ==> m[k] == params[k])
  {
    hide Typed, Legible, Free, KeyOf, ValueOf;
    if its != [] {
      var first, more := KeyOf(op, its[0], posIdx), Keys(op, its[1..], After(its[0], posIdx), nums);
      assert Keys(op, its, posIdx, nums) == [first] + more;
      assert k != first && k !in more;
      MeaningElsewhere(op, its[1..], After(its[0], posIdx), params[first := ValueOf(its[0])], nums, k);
    }
  }

  lemma DistinctTail<T>(x: T, more: seq<T>)
    requires Distinct([x] + more)
    ensures x !in more && Distinct(more)
  {
    var s := [x] + more;
    assert s[0] == x && forall i :: 0 <= i < |more| ==> more[i] == s[i + 1];
  }

  /** Named once, a key gets its item's value. */
  lemma {:induction false} MeaningAt<N>(op: Operation, its: seq<Item<N>>, posIdx: nat,
      params: map<string, Value<N>>, nums: Numbers<N>, i: nat)
    requires WellFormed(op, its, posIdx, nums) && Distinct(Keys(op, its, posIdx, nums)) && i < |its|
    ensures var k, m := Keys(op, its, posIdx, nums)[i], Meaning(op, its, posIdx, params, nums);
      k in m && m[k] == ValueOf(its[i])
  {
    hide Typed, Legible, Free, KeyOf, ValueOf;
    var first, more := KeyOf(op, its[0], posIdx), Keys(op, its[1..], After(its[0], posIdx), nums);
    assert Keys(op, its, posIdx, nums) == [first] + more;
    DistinctTail(first, more);
    if i == 0 {
      MeaningElsewhere(op, its[1..], After(its[0], posIdx), params[first := ValueOf(its[0])], nums, first);
    } else {
      assert ([first] + more)[i] == more[i - 1];
      MeaningAt(op, its[1..], After(its[0], posIdx), params[first := ValueOf(its[0])], nums, i - 1);
    }
  }

  /**
   The parser inverts the printer: any way of saying the parameters, flags in any order and positional
   values in turn, parses to exactly them.
   */
  lemma AnyOrderRoundTrips<N>(op: Operation, nums: Numbers<N>, its: seq<Item<N>>, wanted: map<string, Value<N>>)
    requires WellFormed(op, its, 0, nums) && Says(op, its, wanted, nums)
    ensures Parse(op, nums, PrintAll(its, nums), 0, map[]) == wanted
  {
    hide WellFormed, Keys, Meaning, Parse, PrintAll, ValueOf;
    ParseInvertsPrint(op, nums, its, 0, map[]);
    var m, keys := Meaning(op, its, 0, map[], nums), Keys(op, its, 0, nums);
    forall k ensures (k in m <==> k in wanted) && (k in m ==> m[k] == wanted[k]) {
      if k in keys {
        var i :| 0 <= i < |keys| && keys[i] == k;
        MeaningAt(op, its, 0, map[], nums, i);
        assert wanted[keys[i]] == ValueOf(its[i]);
      } else {
        MeaningElsewhere(op, its, 0, map[], nums, k);
      }
    }
  }

  /** A flag's value suits its declared type; nothing is asked of the name. */
  predicate Fitting<N>(op: Operation, it: Item<N>) {
    (it.Named? && !Is(op, it.key, Boolean) && Typed(op, it.key, it.value)) || (it.On? && Is(op, it.key, Boolean))
  }

  /**
   A single flag survives the round trip exactly if its name has no dash and is not the --no- form of a
   declared boolean, and its number, if it has one, reads back.
   */
  lemma FlagRoundTripsExactly<N>(op: Operation, nums: Numbers<N>, it: Item<N>)
    requires Fitting(op, it)
    ensures Parse(op, nums, Print(it, nums), 0, map[]) == map[it.key := ValueOf(it)]
      <==> '-' !in it.key && !Captured(op, it.key) && (it.Named? ==> Legible(it.value, nums))
  {
    var args := Print(it, nums);
    if '-' in it.key {
      DashedNameFails(op, nums, it);
    } else if Captured(op, it.key) {
      NegatedFlag(op, it.key);
      assert args[0] == "--" + Dash(it.key);
      var other := it.key[3..];
      CapturedFirst(op, nums, args, other);
      assert |other| != |it.key|;
    } else if it.Named? && !Legible(it.value, nums) {
      IllegibleFlag(op, nums, it.key, it.value);
    } else {
      ParseItem(op, nums, it, [], 0, map[]);
      assert args + [] == args;
      assert map[][it.key := ValueOf(it)] == map[it.key := ValueOf(it)];
    }
  }

  /** Beside a boolean x, a text parameter no_x cannot be set: its flag switches x off and its value is dropped. */
  lemma NoFlagIsCaptured<N>(nums: Numbers<N>)
    ensures var op := Operation(map["x" := Boolean, "no_x" := Text], []);
      var it: Item<N> := Named("no_x", Str("v"));
      && Fitting(op, it)
      && Print(it, nums) == ["--no-x", "v"]
      && Parse(op, nums, ["--no-x", "v"], 0, map[]) == map["x" := Flag(false)]
  {
    var op := Operation(map["x" := Boolean, "no_x" := Text], []);
    var arg := "--no-x";
    var off: map<string, Value<N>> := map[]["x" := Flag(false)];
    assert Dash("no_x") == "no-x" && "--" + "no-x" == arg;
    assert arg[..5] == "--no-" && arg[5..] == "x" && Under("x") == "x";
    assert |"x"| != |"no_x"|;
    assert Negated(op, arg) == Some("x") && arg[..2] == "--";
    assert "v"[0] == 'v' && !("--" <= "v");
    assert [arg, "v"][1..] == ["v"] && ["v"][1..] == [];
    assert Parse(op, nums, ["v"], 0, off) == Parse(op, nums, [], 0, off) == off;
    assert Parse(op, nums, [arg, "v"], 0, map[]) == Parse(op, nums, ["v"], 0, off);
    assert off == map["x" := Flag(false)];
  }

  lemma DashedNameFails<N>(op: Operation, nums: Numbers<N>, it: Item<N>)
    requires Fitting(op, it) && '-' in it.key
    ensures Parse(op, nums, Print(it, nums), 0, map[]) != map[it.key := ValueOf(it)]
  {
    hide Is, Typed, Convert, Dash;
    var args := Print(it, nums);
    var arg := "--" + Dash(it.key);
    assert args[0] == arg && arg[..2] == "--";
    var off, key, r := Negated(op, arg), Under(arg[2..]), Parse(op, nums, args, 0, map[]);
    assert '-' !in key;
    if off.Some? {
      assert '-' !in off.value;
      CapturedFirst(op, nums, args, off.value);
    } else if Is(op, key, Boolean) {
      ParseGrows(op, nums, args[1..], 0, map[][key := Flag(true)], key);
    } else if it.Named? {
      var found: map<string, Value<N>> := map[][key := Convert(op, nums, key, args[1])];
      assert |args| == 2 && args[2..] == [];
      assert Parse(op, nums, [], 0, found) == found;
      assert r == Parse(op, nums, args[2..], 0, found);
      assert key in r;
    } else {
      assert it.key !in r;
    }
  }

  lemma IllegibleFlag<N>(op: Operation, nums: Numbers<N>, k: string, v: Value<N>)
    requires '-' !in k && !Captured(op, k) && !Is(op, k, Boolean) && Typed(op, k, v) && !Legible(v, nums)
    ensures Parse(op, nums, Print(Named(k, v), nums), 0, map[]) != map[k := v]
  {
    hide Captured, Is;
    var args := Print(Named(k, v), nums);
    NegatedFlag(op, k);
    DashUnder(k, "--");
    var found: map<string, Value<N>> := map[][k := Convert(op, nums, k, args[1])];
    assert args[2..] == [];
    assert Parse(op, nums, [], 0, found) == found;
    assert Parse(op, nums, args, 0, map[]) == Parse(op, nums, args[2..], 0, found);
    assert found[k] != v;
  }

  /** A positional value survives exactly if it does not look like a flag and its number, if any, reads back. */
  lemma PositionalRoundTripsExactly<N>(op: Operation, nums: Numbers<N>, v: Value<N>)
    requires op.positional != [] && Typed(op, op.positional[0], v)
    ensures Parse(op, nums, Print(Positional(v), nums), 0, map[]) == map[op.positional[0] := v]
      <==> !("--" <= Shown(v, nums)) && Legible(v, nums)
  {
    var args, key := Print(Positional(v), nums), op.positional[0];
    if "--" <= Shown(v, nums) {
      assert args[1..] == [];
      assert key in map[key := v] && map[key := v][key] == v;
    } else if !Legible(v, nums) {
      var found: map<string, Value<N>> := map[][key := Convert(op, nums, key, args[0])];
      assert args[1..] == [];
      assert Parse(op, nums, [], 1, found) == found;
      assert found[key] != v;
    } else {
      ParseItem(op, nums, Positional(v), [], 0, map[]);
      assert args + [] == args;
      assert map[][key := v] == map[key := v];
    }
  }

  /** Parsing never forgets a key. */
  lemma {:induction false} ParseGrows<N>(op: Operation, nums: Numbers<N>, args: seq<string>, posIdx: nat,
      params: map<string, Value<N>>, k: string)
    requires k in params
    ensures k in Parse(op, nums, args, posIdx, params)
    decreases |args|
  {
    hide Negated, Convert, Is;
    if args != [] {
      var arg := args[0];
      if "--" <= arg {
        var off, key := Negated(op, arg), Under(arg[2..]);
        if off.Some? {
          ParseGrows(op, nums, args[1..], posIdx, params[off.value := Flag(false)], k);
        } else if Is(op, key, Boolean) {
          ParseGrows(op, nums, args[1..], posIdx, params[key := Flag(true)], k);
        } else if |args| > 1 {
          ParseGrows(op, nums, args[2..], posIdx, params[key := Convert(op, nums, key, args[1])], k);
        }
      } else if posIdx < |op.positional| {
        var key := op.positional[posIdx];
        ParseGrows(op, nums, args[1..], posIdx + 1, params[key := Convert(op, nums, key, arg)], k);
      } else {
        ParseGrows(op, nums, args[1..], posIdx, params, k);
      }
    }
  }

  lemma CapturedFirst<N>(op: Operation, nums: Numbers<N>, args: seq<string>, other: string)
    requires args != [] && "--" <= args[0] && Negated(op, args[0]) == Some(other)
    ensures other in Parse(op, nums, args, 0, map[])
  {
    ParseGrows(op, nums, args[1..], 0, map[][other := Flag(false)], other);
  }

  /** Decimal integers: one choice of numbers and their text. */
  const INTEGERS: Numbers<int> := Numbers(s => Decimal.Read(s), n => Decimal.Show(n))

  /** Every integer is legible and never looks like a flag, so all that is asked above can be met. */
  lemma IntegersRoundTrip(op: Operation, k: string, n: int)
    requires Is(op, k, Number) && '-' !in k && !Captured(op, k)
    ensures Legible(Num(n), INTEGERS) && !("--" <= Shown(Num(n), INTEGERS))
    ensures Parse(op, INTEGERS, ["--" + Dash(k), Decimal.Show(n)], 0, map[]) == map[k := Num(n)]
    ensures op.positional == [k] ==> Parse(op, INTEGERS, [Decimal.Show(n)], 0, map[]) == map[k := Num(n)]
  {
    Decimal.ReadOfShow(n);
    FlagRoundTripsExactly(op, INTEGERS, Named(k, Num(n)));
    if op.positional == [k] {
      PositionalRoundTripsExactly(op, INTEGERS, Num(n));
    }
  }
}
