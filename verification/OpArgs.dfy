/** The operation argument parser (src/cli.ts) and the flag spelling its help prints. */
module OpArgs {
  datatype ParamType = StringParam | NumberParam | BooleanParam | OtherParam

  /** A parsed value; numbers are whatever `Number(text)` gives. */
  datatype Value<N> = Flag(on: bool) | Text(text: string) | Num(num: N)

  /** Declared parameters, positional keys in order, and JavaScript's `Number`. */
  datatype Operation<!N> = Operation(params: map<string, ParamType>, positional: seq<string>, toNumber: string -> N)

  type Params<N> = map<string, Value<N>>

  function Underscored(s: string): (r: string)
    ensures |r| == |s|
  {
    seq(|s|, i requires 0 <= i < |s| => if s[i] == '-' then '_' else s[i])
  }

  function Dashed(s: string): (r: string)
    ensures |r| == |s|
  {
    seq(|s|, i requires 0 <= i < |s| => if s[i] == '_' then '-' else s[i])
  }

  predicate IsBoolean<N>(op: Operation<N>, key: string) {
    key in op.params && op.params[key].BooleanParam?
  }

  /** What a text becomes for a key. */
  function Coerced<N>(op: Operation<N>, key: string, text: string): Value<N> {
    if key in op.params && op.params[key].NumberParam? then Num(op.toNumber(text)) else Text(text)
  }

  /** `--no-x` with `x` a declared boolean. */
  predicate IsNegation<N>(op: Operation<N>, arg: string) {
    "--no-" <= arg && IsBoolean(op, Underscored(arg[5..]))
  }

  /** What is left to parse, what is parsed, and the next positional key. */
  function ParseFrom<N>(op: Operation<N>, args: seq<string>, posIdx: nat, params: Params<N>): Params<N>
    decreases |args|
  {
    if args == [] then params
    else
      var arg := args[0];
      if "--" <= arg then
        if IsNegation(op, arg) then ParseFrom(op, args[1..], posIdx, params[Underscored(arg[5..]) := Flag(false)])
        else
          var key := Underscored(arg[2..]);
          if IsBoolean(op, key) then ParseFrom(op, args[1..], posIdx, params[key := Flag(true)])
          else if |args| > 1 then ParseFrom(op, args[2..], posIdx, params[key := Coerced(op, key, args[1])])
          else params
      else if posIdx < |op.positional| then
        var key := op.positional[posIdx];
        ParseFrom(op, args[1..], posIdx + 1, params[key := Coerced(op, key, arg)])
      else ParseFrom(op, args[1..], posIdx, params)
  }

  method ParseOpArgs<N>(op: Operation<N>, args: seq<string>) returns (params: Params<N>)
    ensures params == ParseFrom(op, args, 0, map[])
  {
    params := map[];
    var posIdx, i := 0, 0;
    while i < |args|
      invariant 0 <= i <= |args|
      invariant 0 <= posIdx
      invariant ParseFrom(op, args[i..], posIdx, params) == ParseFrom(op, args, 0, map[])
    {
      var arg := args[i];
      assert args[i..][1..] == args[i + 1..];
      if "--" <= arg {
        if "--no-" <= arg {
          var positiveKey := Underscored(arg[5..]);
          if IsBoolean(op, positiveKey) {
            params := params[positiveKey := Flag(false)];
            i := i + 1;
            continue;
          }
        }
        var key := Underscored(arg[2..]);
        if IsBoolean(op, key) {
          params := params[key := Flag(true)];
        } else if i + 1 < |args| {
          assert args[i..][2..] == args[i + 2..];
          i := i + 1;
          params := params[key := Coerced(op, key, args[i])];
        }
      } else if posIdx < |op.positional| {
        var key := op.positional[posIdx];
        posIdx := posIdx + 1;
        params := params[key := Coerced(op, key, arg)];
      }
      i := i + 1;
    }
  }

  // ----- printing -----

  /** One thing on a command line: a flag for a key, or a positional word. */
  datatype Item = On(key: string) | Off(key: string) | Given(key: string, text: string) | Word(text: string)

  function PrintItem(item: Item): seq<string> {
    match item
    case On(key) => ["--" + Dashed(key)]
    case Off(key) => ["--no-" + Dashed(key)]
    case Given(key, text) => ["--" + Dashed(key), text]
    case Word(text) => [text]
  }

  function Print(items: seq<Item>): seq<string> {
    if items == [] then [] else PrintItem(items[0]) + Print(items[1..])
  }

  /** `key` is spelled like the negation of a declared boolean. */
  predicate LooksNegated<N>(op: Operation<N>, key: string) {
    "no_" <= key && IsBoolean(op, key[3..])
  }

  /** What an item must satisfy to be read as itself. */
  predicate Readable<N>(op: Operation<N>, item: Item) {
    match item
    case On(key) => '-' !in key && IsBoolean(op, key) && !LooksNegated(op, key)
    case Off(key) => '-' !in key && IsBoolean(op, key)
    case Given(key, _) => '-' !in key && !IsBoolean(op, key) && !LooksNegated(op, key)
    case Word(text) => !("--" <= text)
  }

  /** What an item means at position `posIdx`: the parameters after it. */
  function Apply<N>(op: Operation<N>, item: Item, posIdx: nat, params: Params<N>): Params<N> {
    match item
    case On(key) => params[key := Flag(true)]
    case Off(key) => params[key := Flag(false)]
    case Given(key, text) => params[key := Coerced(op, key, text)]
    case Word(text) =>
      if posIdx < |op.positional| then params[op.positional[posIdx] := Coerced(op, op.positional[posIdx], text)] else params
  }

  function NextPos<N>(op: Operation<N>, item: Item, posIdx: nat): nat {
    if item.Word? && posIdx < |op.positional| then posIdx + 1 else posIdx
  }

  function ApplyAll<N>(op: Operation<N>, items: seq<Item>, posIdx: nat, params: Params<N>): Params<N>
    decreases items
  {
    if items == [] then params
    else ApplyAll(op, items[1..], NextPos(op, items[0], posIdx), Apply(op, items[0], posIdx, params))
  }

  // ----- the spelling round trip -----

  lemma DashesComeBack(key: string)
    ensures Underscored(Dashed(key)) == key <==> '-' !in key
  {
  }

  lemma UnderscoredTail(s: string, n: nat)
    requires n <= |s|
    ensures Underscored(s[n..]) == Underscored(s)[n..]
  {
  }

  /** A printed flag is taken for a negation exactly when its key looks like one. */
  lemma NegationSpelling<N>(op: Operation<N>, key: string)
    requires '-' !in key
    ensures IsNegation(op, "--" + Dashed(key)) <==> LooksNegated(op, key)
  {
    var arg, d := "--" + Dashed(key), Dashed(key);
    DashesComeBack(key);
    assert arg[2..] == d;
    if "--no-" <= arg {
      assert arg[..5] == "--no-";
      assert d[0] == arg[2] == 'n' && d[1] == arg[3] == 'o' && d[2] == arg[4] == '-';
      assert key[0] == 'n' && key[1] == 'o' && key[2] == '_';
      assert key[..3] == "no_";
    }
    if "no_" <= key {
      assert key[..3] == "no_";
      assert d[0] == 'n' && d[1] == 'o' && d[2] == '-';
      assert arg[..5] == "--no-";
    }
    if |key| >= 3 {
      assert arg[5..] == d[3..];
      UnderscoredTail(d, 3);
    }
  }

  /** One readable item is read as what it means, and the parser goes on after it. */
  lemma ItemReads<N>(op: Operation<N>, item: Item, rest: seq<string>, posIdx: nat, params: Params<N>)
    requires Readable(op, item)
    ensures ParseFrom(op, PrintItem(item) + rest, posIdx, params) ==
            ParseFrom(op, rest, NextPos(op, item, posIdx), Apply(op, item, posIdx, params))
  {
    var args := PrintItem(item) + rest;
    match item
    case On(key) =>
      NegationSpelling(op, key);
      DashesComeBack(key);
      assert args[0][2..] == Dashed(key) && args[1..] == rest;
    case Off(key) =>
      DashesComeBack(key);
      assert args[0][5..] == Dashed(key) && args[1..] == rest;
      assert args[0][..5] == "--no-" && args[0][..2] == "--";
    case Given(key, text) =>
      NegationSpelling(op, key);
      DashesComeBack(key);
      assert args[0][2..] == Dashed(key) && args[1] == text && args[2..] == rest;
    case Word(text) =>
      assert args[0] == text && args[1..] == rest;
  }

  /** Any readable line, flags and words interleaved in any way, parses to what it means. */
  lemma {:induction false} LineReads<N>(op: Operation<N>, items: seq<Item>, posIdx: nat, params: Params<N>)
    requires forall item :: item in items ==> Readable(op, item)
    ensures ParseFrom(op, Print(items), posIdx, params) == ApplyAll(op, items, posIdx, params)
    decreases items
  {
    if items != [] {
      ItemReads(op, items[0], Print(items[1..]), posIdx, params);
      LineReads(op, items[1..], NextPos(op, items[0], posIdx), Apply(op, items[0], posIdx, params));
    }
  }

  // ----- whole records -----

  /** The flag keys of a line. */
  function FlagKeys(items: seq<Item>): seq<string> {
    if items == [] then []
    else (if items[0].Word? then [] else [items[0].key]) + FlagKeys(items[1..])
  }

  function Words(items: seq<Item>): seq<string> {
    if items == [] then []
    else (if items[0].Word? then [items[0].text] else []) + Words(items[1..])
  }

  /** A flag that says what the record holds. */
  ghost predicate Says<N>(op: Operation<N>, item: Item, rec: Params<N>) {
    match item
    case On(key) => key in rec && rec[key] == Flag(true)
    case Off(key) => key in rec && rec[key] == Flag(false)
    case Given(key, text) => key in rec && rec[key] == Coerced(op, key, text)
    case Word(_) => true
  }

  /** The bindings made so far agree with `rec`. */
  ghost predicate Agrees<N>(params: Params<N>, rec: Params<N>) {
    forall k :: k in params ==> k in rec && params[k] == rec[k]
  }

  /** The words, from position `posIdx` on, give what `rec` holds for their positional keys. */
  ghost predicate WordsSay<N>(op: Operation<N>, words: seq<string>, posIdx: nat, rec: Params<N>) {
    && posIdx + |words| <= |op.positional|
    && forall j :: posIdx <= j < posIdx + |words| ==>
         op.positional[j] in rec && rec[op.positional[j]] == Coerced(op, op.positional[j], words[j - posIdx])
  }

  /**
   * `items` prints `rec`: each key is a flag or one of the positional keys used, the flags say what the
   * record holds, and the words, in order, give the leading positional keys.
   */
  ghost predicate Prints<N>(op: Operation<N>, items: seq<Item>, rec: Params<N>) {
    && (forall item :: item in items ==> Readable(op, item) && Says(op, item, rec))
    && WordsSay(op, Words(items), 0, rec)
    && (forall k :: k in rec ==> k in FlagKeys(items) || k in op.positional[..|Words(items)|])
  }

  lemma WordsSayRest<N>(op: Operation<N>, words: seq<string>, posIdx: nat, rec: Params<N>)
    requires words != [] && WordsSay(op, words, posIdx, rec)
    ensures WordsSay(op, words[1..], posIdx + 1, rec)
    ensures op.positional[posIdx] in rec && rec[op.positional[posIdx]] == Coerced(op, op.positional[posIdx], words[0])
  {
  }

  /** Every binding the line makes agrees with `rec`, and every key it mentions is bound. */
  lemma {:induction false} AppliedAgrees<N>(op: Operation<N>, items: seq<Item>, posIdx: nat, params: Params<N>, rec: Params<N>)
    requires forall item :: item in items ==> Says(op, item, rec)
    requires WordsSay(op, Words(items), posIdx, rec) && Agrees(params, rec)
    ensures var r := ApplyAll(op, items, posIdx, params);
            && Agrees(r, rec)
            && (forall k :: k in params ==> k in r)
            && (forall k :: k in FlagKeys(items) ==> k in r)
            && (forall j :: posIdx <= j < posIdx + |Words(items)| ==> op.positional[j] in r)
    decreases items
  {
    if items != [] {
      var item, rest := items[0], items[1..];
      assert items == [item] + rest;
      var applied := Apply(op, item, posIdx, params);
      assert Says(op, item, rec);
      if item.Word? {
        assert Words(items)[1..] == Words(rest);
        WordsSayRest(op, Words(items), posIdx, rec);
        assert Agrees(applied, rec);
        AppliedAgrees(op, rest, posIdx + 1, applied, rec);
      } else {
        assert Words(items) == Words(rest);
        assert FlagKeys(items) == [item.key] + FlagKeys(rest);
        assert Agrees(applied, rec);
        AppliedAgrees(op, rest, posIdx, applied, rec);
      }
    }
  }

  /** A record printed as flags and positional words, in any order of flags and any interleaving, parses to itself. */
  lemma RecordRoundTrip<N>(op: Operation<N>, items: seq<Item>, rec: Params<N>)
    requires Prints(op, items, rec)
    ensures ParseFrom(op, Print(items), 0, map[]) == rec
  {
    LineReads(op, items, 0, map[]);
    AppliedAgrees(op, items, 0, map[], rec);
    var r := ApplyAll(op, items, 0, map[]);
    forall k | k in rec ensures k in r {
      if k in op.positional[..|Words(items)|] {
        var j :| 0 <= j < |Words(items)| && op.positional[j] == k;
      }
    }
  }

  // ----- what a text becomes -----

  predicate IsNumber<N>(op: Operation<N>, key: string) {
    key in op.params && op.params[key] == NumberParam
  }

  /** A flag's text becomes a number for a key declared so, and stays a text for every other key, declared or not. */
  lemma FlagText<N>(op: Operation<N>, key: string, text: string)
    requires Readable(op, Given(key, text))
    ensures var r := ParseFrom(op, PrintItem(Given(key, text)), 0, map[]);
            && (IsNumber(op, key) ==> r == map[key := Num(op.toNumber(text))])
            && (!IsNumber(op, key) ==> r == map[key := Text(text)])
  {
    ItemReads<N>(op, Given(key, text), [], 0, map[]);
    assert PrintItem(Given(key, text)) + [] == PrintItem(Given(key, text));
  }

  /** The same holds of a positional word; one more than there are positions is dropped. */
  lemma WordText<N>(op: Operation<N>, text: string, posIdx: nat, params: Params<N>)
    requires !("--" <= text)
    ensures var r := ParseFrom(op, [text], posIdx, params);
            if posIdx >= |op.positional| then r == params
            else
              var key := op.positional[posIdx];
              && (IsNumber(op, key) ==> r == params[key := Num(op.toNumber(text))])
              && (!IsNumber(op, key) ==> r == params[key := Text(text)])
  {
    assert [text][1..] == [];
  }

  // ----- where the spelling fails -----

  /** Exactly when a lone boolean flag set to true comes back: the key has no dash and is not a negation. */
  lemma OnRoundTripExactly<N>(op: Operation<N>, key: string)
    requires IsBoolean(op, key)
    ensures ParseFrom(op, PrintItem(On(key)), 0, map[]) == map[key := Flag(true)] <==>
            '-' !in key && !LooksNegated(op, key)
  {
    var arg := "--" + Dashed(key);
    assert PrintItem(On(key)) == [arg];
    assert arg[2..] == Dashed(key);
    if '-' !in key && !LooksNegated(op, key) {
      ItemReads<N>(op, On(key), [], 0, map[]);
      assert [arg] + [] == [arg];
    } else {
      LoneFlag(op, arg);
      DashesComeBack(key);
      if '-' !in key {
        NegationSpelling(op, key);
      }
      var r := ParseFrom<N>(op, [arg], 0, map[]);
      assert key !in r;
      var expected: Params<N> := map[key := Flag(true)];
      assert key in expected;
    }
  }

  /** What a single flag alone on the line is read as. */
  lemma LoneFlag<N>(op: Operation<N>, arg: string)
    requires "--" <= arg
    ensures ParseFrom(op, [arg], 0, map[]) ==
            if IsNegation(op, arg) then map[Underscored(arg[5..]) := Flag(false)]
            else if IsBoolean(op, Underscored(arg[2..])) then map[Underscored(arg[2..]) := Flag(true)]
            else map[]
  {
  }

  /** Nothing parsed is forgotten. */
  lemma {:induction false} ParseKeeps<N>(op: Operation<N>, args: seq<string>, posIdx: nat, params: Params<N>)
    ensures params.Keys <= ParseFrom(op, args, posIdx, params).Keys
    decreases |args|
  {
    if args != [] {
      var arg := args[0];
      if "--" <= arg {
        var key := Underscored(arg[2..]);
        if IsNegation(op, arg) {
          ParseKeeps(op, args[1..], posIdx, params[Underscored(arg[5..]) := Flag(false)]);
        } else if IsBoolean(op, key) {
          ParseKeeps(op, args[1..], posIdx, params[key := Flag(true)]);
        } else if |args| > 1 {
          ParseKeeps(op, args[2..], posIdx, params[key := Coerced(op, key, args[1])]);
        }
      } else if posIdx < |op.positional| {
        ParseKeeps(op, args[1..], posIdx + 1, params[op.positional[posIdx] := Coerced(op, op.positional[posIdx], arg)]);
      } else {
        ParseKeeps(op, args[1..], posIdx, params);
      }
    }
  }

  /** The key a flag with a text after it binds. */
  function BoundBy<N>(op: Operation<N>, arg: string): string
    requires "--" <= arg
  {
    if IsNegation(op, arg) then Underscored(arg[5..]) else Underscored(arg[2..])
  }

  lemma FlagBinds<N>(op: Operation<N>, arg: string, text: string)
    requires "--" <= arg
    ensures BoundBy(op, arg) in ParseFrom(op, [arg, text], 0, map[])
  {
    var key := BoundBy(op, arg);
    assert [arg, text][1..] == [text] && [arg, text][2..] == [];
    if IsNegation(op, arg) {
      ParseKeeps<N>(op, [text], 0, map[key := Flag(false)]);
    } else if IsBoolean(op, key) {
      ParseKeeps<N>(op, [text], 0, map[key := Flag(true)]);
    }
  }

  /** A key that does not read as itself is bound under another name. */
  lemma BoundElsewhere<N>(op: Operation<N>, key: string)
    requires '-' in key || LooksNegated(op, key)
    ensures BoundBy(op, "--" + Dashed(key)) != key
  {
    var arg := "--" + Dashed(key);
    assert arg[2..] == Dashed(key);
    DashesComeBack(key);
    if '-' in key {
      var bound := BoundBy(op, arg);
      assert forall i :: 0 <= i < |bound| ==> bound[i] != '-';
    } else {
      NegationSpelling(op, key);
    }
  }

  /** Exactly when a flag with a value comes back: again the key has no dash and is not a negation. */
  lemma GivenRoundTripExactly<N>(op: Operation<N>, key: string, text: string)
    requires !IsBoolean(op, key)
    ensures ParseFrom(op, PrintItem(Given(key, text)), 0, map[]) == map[key := Coerced(op, key, text)] <==>
            '-' !in key && !LooksNegated(op, key)
  {
    var item := Given(key, text);
    if '-' !in key && !LooksNegated(op, key) {
      ItemReads<N>(op, item, [], 0, map[]);
      assert PrintItem(item) + [] == PrintItem(item);
    } else {
      var arg := "--" + Dashed(key);
      assert PrintItem(item) == [arg, text];
      FlagBinds(op, arg, text);
      BoundElsewhere(op, key);
      var expected: Params<N> := map[key := Coerced(op, key, text)];
      assert BoundBy(op, arg) !in expected;
    }
  }

  /** Exactly when a boolean set to false comes back: the key has no dash. */
  lemma OffRoundTripExactly<N>(op: Operation<N>, key: string)
    requires IsBoolean(op, key)
    ensures ParseFrom(op, PrintItem(Off(key)), 0, map[]) == map[key := Flag(false)] <==> '-' !in key
  {
    var arg := "--no-" + Dashed(key);
    assert PrintItem(Off(key)) == [arg] && arg[5..] == Dashed(key) && arg[..2] == "--";
    DashesComeBack(key);
    if '-' !in key {
      ItemReads<N>(op, Off(key), [], 0, map[]);
      assert [arg] + [] == [arg];
    } else {
      LoneFlag(op, arg);
      var r := ParseFrom<N>(op, [arg], 0, map[]);
      var i :| 0 <= i < |key| && key[i] == '-';
      assert Underscored(arg[2..]) != key;
      assert key !in r;
      var expected: Params<N> := map[key := Flag(false)];
      assert key in expected;
    }
  }

  /** Such a key: a declared `no_cache` beside a boolean `cache` reads as `cache` off. */
  lemma NoCacheIsMisread()
    ensures var op := Operation(map["cache" := BooleanParam, "no_cache" := BooleanParam], [], (s: string) => 0);
            ParseFrom(op, PrintItem(On("no_cache")), 0, map[]) != map["no_cache" := Flag(true)]
  {
    var op := Operation(map["cache" := BooleanParam, "no_cache" := BooleanParam], [], (s: string) => 0);
    assert "no_cache"[..3] == "no_" && "no_cache"[3..] == "cache";
    OnRoundTripExactly(op, "no_cache");
  }
}
