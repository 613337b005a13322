/** Chains of settings prefixes (nShared/Settings.cpp). A `<prefix>Group` setting names the
    prefix to fall back to; the groups of a prefix form a chain, built with a check against
    circular definitions. Here the chains are sequences; Settings.dfy builds them in memory. */
module GroupChains {
  import opened Text

  /** The configuration: setting names, lower-cased, to values. */
  type Config = map<string, string>

  const GROUP := "group"

  /** The group a prefix names, or "". */
  function GroupOf(config: Config, prefix: string): string {
    var key := Lower(prefix) + GROUP;
    if key in config then config[key] else ""
  }

  predicate InTrail(trail: seq<string>, name: string) {
    exists i :: 0 <= i < |trail| && SameName(trail[i], name)
  }

  /** The keys of the Group settings of the prefixes in `trail`. */
  function TrailKeys(trail: seq<string>): set<string> {
    set i | 0 <= i < |trail| :: Lower(trail[i]) + GROUP
  }

  /** What the construction relies on: every prefix on the trail names a group, and the prefix
      being built is new, unless it names itself. */
  predicate GoodTrail(config: Config, trail: seq<string>, prefix: string) {
    && TrailKeys(trail) <= config.Keys
    && (InTrail(trail, prefix) ==> SameName(GroupOf(config, prefix), prefix))
  }

  /** Keys of Group settings not used up by the trail. */
  function Unused(config: Config, trail: seq<string>): set<string> {
    config.Keys - TrailKeys(trail)
  }

  /** The chain for `prefix`, built with `trail` behind it. */
  function Chain(config: Config, prefix: string, trail: seq<string>): (chain: seq<string>)
    requires GoodTrail(config, trail, prefix)
    ensures |chain| > 0 && chain[0] == prefix
    decreases |Unused(config, trail)|
  {
    var group := GroupOf(config, prefix);
    if group == "" || InTrail(trail, group) then [prefix]
    else
      TrailGrows(config, trail, prefix);
      [prefix] + Chain(config, group, trail + [prefix])
  }

  /** The chain of a prefix from the configuration alone. */
  function GroupChain(config: Config, prefix: string): (chain: seq<string>)
    ensures |chain| > 0 && chain[0] == prefix
  {
    Chain(config, prefix, [])
  }

  lemma KeysTell(a: string, b: string)
    ensures Lower(a) + GROUP == Lower(b) + GROUP ==> SameName(a, b)
  {
    assert Lower(a) == (Lower(a) + GROUP)[..|Lower(a) + GROUP| - |GROUP|];
    assert Lower(b) == (Lower(b) + GROUP)[..|Lower(b) + GROUP| - |GROUP|];
  }

  lemma InLongerTrail(trail: seq<string>, last: string, name: string)
    ensures InTrail(trail + [last], name) <==> InTrail(trail, name) || SameName(last, name)
    ensures TrailKeys(trail + [last]) == TrailKeys(trail) + {Lower(last) + GROUP}
  {
    hide Lower;
    var longer := trail + [last];
    assert longer[|trail|] == last;
    forall i | 0 <= i < |trail| ensures longer[i] == trail[i] {
    }
    if InTrail(trail, name) {
      var i :| 0 <= i < |trail| && SameName(trail[i], name);
      assert SameName(longer[i], name);
    }
    forall k | k in TrailKeys(trail) ensures k in TrailKeys(longer) {
      var i :| 0 <= i < |trail| && k == Lower(trail[i]) + GROUP;
      assert longer[i] == trail[i];
    }
  }

  lemma KeyInTrail(trail: seq<string>, name: string)
    ensures Lower(name) + GROUP in TrailKeys(trail) <==> InTrail(trail, name)
  {
    hide Lower;
    forall i | 0 <= i < |trail| ensures Lower(trail[i]) + GROUP == Lower(name) + GROUP <==> SameName(trail[i], name) {
      KeysTell(trail[i], name);
    }
  }

  lemma InTrailSame(trail: seq<string>, a: string, b: string)
    requires SameName(a, b)
    ensures InTrail(trail, a) <==> InTrail(trail, b)
  {
    hide Lower;
    assert forall i :: 0 <= i < |trail| ==> (SameName(trail[i], a) <==> SameName(trail[i], b));
  }

  /** Each step puts a new prefix on the trail, so it uses up a Group setting. */
  lemma TrailGrows(config: Config, trail: seq<string>, prefix: string)
    requires GoodTrail(config, trail, prefix)
    requires GroupOf(config, prefix) != "" && !InTrail(trail, GroupOf(config, prefix))
    ensures !InTrail(trail, prefix)
    ensures GoodTrail(config, trail + [prefix], GroupOf(config, prefix))
    ensures |Unused(config, trail + [prefix])| < |Unused(config, trail)|
  {
    hide Lower, InTrail, TrailKeys;
    var group, longer := GroupOf(config, prefix), trail + [prefix];
    var key := Lower(prefix) + GROUP;
    if SameName(group, prefix) {
      InTrailSame(trail, group, prefix);
    }
    InLongerTrail(trail, prefix, group);
    KeyInTrail(trail, prefix);
    assert Unused(config, longer) == Unused(config, trail) - {key};
    assert SameName(prefix, group) ==> GroupOf(config, group) == group;
  }

  // ----- What the chain of a prefix is

  predicate Follows(config: Config, a: string, b: string) {
    b != "" && b == GroupOf(config, a)
  }

  /** Every entry is the group that the one before it names. */
  predicate Linked(config: Config, chain: seq<string>) {
    forall i, j :: 0 <= i && j == i + 1 < |chain| ==> Follows(config, chain[i], chain[j])
  }

  /** No name occurs twice, except that the last two entries may be the same name. */
  predicate Distinct(chain: seq<string>) {
    forall i, j :: 0 <= i < j < |chain| && SameName(chain[i], chain[j]) ==> i == |chain| - 2
  }

  /** The chain stops only where no group is named, or where the named group is already in it,
      before its last entry. */
  predicate Complete(config: Config, chain: seq<string>)
    requires chain != []
  {
    var group := GroupOf(config, chain[|chain| - 1]);
    group == "" || InTrail(chain[..|chain| - 1], group)
  }

  predicate IsGroupChain(config: Config, prefix: string, chain: seq<string>) {
    chain != [] && chain[0] == prefix && Linked(config, chain) && Distinct(chain) && Complete(config, chain)
  }

  lemma SameNameSameGroup(config: Config, a: string, b: string)
    requires SameName(a, b)
    ensures GroupOf(config, a) == GroupOf(config, b)
  {
  }

  /** No entry, the first aside, repeats one further back than its predecessor. */
  predicate Apart(chain: seq<string>, trail: seq<string>) {
    && (forall t, j :: 0 <= t < |trail| && 1 <= j < |chain| ==> !SameName(trail[t], chain[j]))
    && (forall i, j :: 0 <= i && i + 2 <= j < |chain| ==> !SameName(chain[i], chain[j]))
  }

  lemma {:induction false} ChainSteps(config: Config, prefix: string, trail: seq<string>)
    requires GoodTrail(config, trail, prefix)
    ensures var chain := Chain(config, prefix, trail);
            && Linked(config, chain) && Apart(chain, trail)
            && (var group := GroupOf(config, chain[|chain| - 1]);
                group == "" || InTrail(trail, group) || InTrail(chain[..|chain| - 1], group))
    decreases |Unused(config, trail)|
  {
    hide GoodTrail, Lower;
    var group := GroupOf(config, prefix);
    if group != "" && !InTrail(trail, group) {
      TrailGrows(config, trail, prefix);
      ChainSteps(config, group, trail + [prefix]);
      Extend(config, prefix, trail, Chain(config, group, trail + [prefix]));
    }
  }

  lemma Extend(config: Config, prefix: string, trail: seq<string>, rest: seq<string>)
    requires rest != [] && Follows(config, prefix, rest[0]) && !InTrail(trail, rest[0])
    requires Linked(config, rest) && Apart(rest, trail + [prefix])
    requires var group := GroupOf(config, rest[|rest| - 1]);
             group == "" || InTrail(trail + [prefix], group) || InTrail(rest[..|rest| - 1], group)
    ensures var chain := [prefix] + rest;
            && Linked(config, chain) && Apart(chain, trail)
            && (var group := GroupOf(config, chain[|chain| - 1]);
                group == "" || InTrail(trail, group) || InTrail(chain[..|chain| - 1], group))
  {
    hide SameName, Follows;
    var chain, longer := [prefix] + rest, trail + [prefix];
    assert longer[|trail|] == prefix;
    forall t | 0 <= t < |trail| ensures longer[t] == trail[t] {
    }
    var group := GroupOf(config, rest[|rest| - 1]);
    var init, restInit := chain[..|chain| - 1], rest[..|rest| - 1];
    if i :| 0 <= i < |restInit| && SameName(restInit[i], group) {
      assert init[i + 1] == restInit[i];
    } else if i :| 0 <= i < |longer| && SameName(longer[i], group) {
      assert i == |trail| ==> init[0] == longer[i];
    }
  }

  lemma AdjacentRepeat(config: Config, chain: seq<string>, j: nat)
    requires Linked(config, chain) && 0 < j < |chain| - 1 && SameName(chain[j - 1], chain[j])
    ensures SameName(chain[j - 1], chain[j + 1])
  {
    assert Follows(config, chain[j - 1], chain[j]) && Follows(config, chain[j], chain[j + 1]);
    SameNameSameGroup(config, chain[j - 1], chain[j]);
  }

  lemma ApartIsDistinct(config: Config, chain: seq<string>)
    requires Linked(config, chain) && Apart(chain, [])
    ensures Distinct(chain)
  {
    forall i, j | 0 <= i < j < |chain| && SameName(chain[i], chain[j]) ensures i == |chain| - 2 {
      if i == j - 1 && j < |chain| - 1 {
        AdjacentRepeat(config, chain, j);
      }
    }
  }

  /** Construction ends for every configuration, however circular, in a chain that follows the
      Group settings as far as possible without coming back. */
  lemma GroupChainIsGroupChain(config: Config, prefix: string)
    ensures IsGroupChain(config, prefix, GroupChain(config, prefix))
  {
    var chain := GroupChain(config, prefix);
    ChainSteps(config, prefix, []);
    ApartIsDistinct(config, chain);
  }

  lemma {:induction false} ChainsAgree(config: Config, a: seq<string>, b: seq<string>, k: nat)
    requires k < |a| && k < |b| && a[0] == b[0]
    requires Linked(config, a) && Linked(config, b)
    ensures a[..k + 1] == b[..k + 1]
  {
    if k > 0 {
      ChainsAgree(config, a, b, k - 1);
      assert a[k - 1] == a[..k][k - 1] == b[k - 1];
      assert Follows(config, a[k - 1], a[k]) && Follows(config, b[k - 1], b[k]);
      assert a[..k + 1] == a[..k] + [a[k]] && b[..k + 1] == b[..k] + [b[k]];
    }
  }

  /** A longer chain would come back to where a complete one stops. */
  lemma LongerComesBack(config: Config, a: seq<string>, b: seq<string>)
    requires a != [] && |a| < |b| && a[0] == b[0] && Linked(config, a) && Linked(config, b)
    requires Complete(config, a)
    ensures !Distinct(b)
  {
    hide SameName;
    var n := |a| - 1;
    ChainsAgree(config, a, b, n);
    assert a[n] == a[..n + 1][n] == b[n];
    assert Follows(config, b[n], b[n + 1]);
    var i :| 0 <= i < |a[..n]| && SameName(a[..n][i], GroupOf(config, a[n]));
    assert a[i] == a[..n + 1][i] == b[i];
    assert SameName(b[i], b[n + 1]) && i < n + 1 < |b|;
    assert i != |b| - 2;
  }

  /** That describes the chain completely: nothing else follows the settings that far. */
  lemma GroupChainUnique(config: Config, prefix: string, chain: seq<string>)
    ensures IsGroupChain(config, prefix, chain) <==> chain == GroupChain(config, prefix)
  {
    hide GroupChain, Complete, Distinct, Linked;
    var built := GroupChain(config, prefix);
    GroupChainIsGroupChain(config, prefix);
    if IsGroupChain(config, prefix, chain) {
      if |chain| < |built| { LongerComesBack(config, chain, built); }
      if |built| < |chain| { LongerComesBack(config, built, chain); }
      ChainsAgree(config, chain, built, |chain| - 1);
      assert chain[..|chain|] == chain && built[..|built|] == built;
    }
  }

  /** The last two entries are the same name exactly when that group names itself. */
  lemma RepeatsOnlySelfGroup(config: Config, prefix: string)
    ensures var chain := GroupChain(config, prefix);
            forall i, j :: 0 <= i < j < |chain| ==>
              (SameName(chain[i], chain[j]) <==> i == |chain| - 2 && SameName(GroupOf(config, chain[i]), chain[i]))
  {
    hide GroupChain, Complete;
    GroupChainIsGroupChain(config, prefix);
    var chain := GroupChain(config, prefix);
    forall i, j | 0 <= i < j < |chain|
      ensures SameName(chain[i], chain[j]) <==> i == |chain| - 2 && SameName(GroupOf(config, chain[i]), chain[i])
    {
      if i == |chain| - 2 {
        assert Follows(config, chain[i], chain[j]);
      }
    }
  }

  /** Such a group does occur twice. */
  lemma SelfGroupRepeats()
    ensures GroupChain(map["agroup" := "A"], "A") == ["A", "A"]
  {
    var c := map["agroup" := "A"];
    NamesItself(c);
    var chain := ["A", "A"];
    assert IsGroupChain(c, "A", chain) by {
      hide GroupOf, SameName, GroupChain;
      assert chain[..1] == ["A"] && ["A"][0] == "A";
    }
    GroupChainUnique(c, "A", chain);
  }

  lemma NamesItself(c: Config)
    requires c == map["agroup" := "A"]
    ensures GroupOf(c, "A") == "A" && SameName("A", "A")
  {
    assert Lower("A") + GROUP == "agroup";
  }

  // ----- Looking a setting up

  /** The value of one prefixed setting, if it is there and makes sense. */
  function ReadSetting<T>(config: Config, prefix: string, key: string, parse: string -> Option<T>): Option<T> {
    var full := Lower(prefix + key);
    if full in config then parse(config[full]) else None
  }

  /** The value at the first prefix that has one. */
  function Lookup<T>(config: Config, chain: seq<string>, key: string, parse: string -> Option<T>, default: T): T {
    if chain == [] then default
    else
      match ReadSetting(config, chain[0], key, parse)
      case Some(value) => value
      case None => Lookup(config, chain[1..], key, parse, default)
  }

  lemma {:induction false} LookupIsFirst<T>(config: Config, chain: seq<string>, key: string, parse: string -> Option<T>, default: T)
    ensures var r := Lookup(config, chain, key, parse, default);
            || ((forall i :: 0 <= i < |chain| ==> ReadSetting(config, chain[i], key, parse) == None) && r == default)
            || (exists i :: 0 <= i < |chain| && ReadSetting(config, chain[i], key, parse) == Some(r)
                            && forall j :: 0 <= j < i ==> ReadSetting(config, chain[j], key, parse) == None)
  {
    hide ReadSetting;
    if chain != [] && ReadSetting(config, chain[0], key, parse) == None {
      LookupIsFirst(config, chain[1..], key, parse, default);
      var r := Lookup(config, chain, key, parse, default);
      if i :| 0 <= i < |chain| - 1 && ReadSetting(config, chain[1..][i], key, parse) == Some(r)
              && forall j :: 0 <= j < i ==> ReadSetting(config, chain[1..][j], key, parse) == None {
        assert ReadSetting(config, chain[i + 1], key, parse) == Some(r);
        forall j | 0 <= j < i + 1 ensures ReadSetting(config, chain[j], key, parse) == None {
          if j > 0 { assert chain[1..][j - 1] == chain[j]; }
        }
      } else {
        forall j | 0 <= j < |chain| ensures ReadSetting(config, chain[j], key, parse) == None {
          if j > 0 { assert chain[1..][j - 1] == chain[j]; }
        }
      }
    } else if chain != [] {
      assert ReadSetting(config, chain[0], key, parse) == Some(Lookup(config, chain, key, parse, default));
    }
  }

  /** A setting is named by the prefix with the key behind it, in any case. */
  lemma NamedByPrefixAndKey<T>(config: Config, name: string, prefix: string, rest: seq<string>, key: string, parse: string -> Option<T>, default: T)
    requires SameName(name, prefix + key) && Lower(name) in config && parse(config[Lower(name)]).Some?
    ensures Lookup(config, [prefix] + rest, key, parse, default) == parse(config[Lower(name)]).value
  {
  }

  /** One that is missing, or makes no sense, is looked up behind that prefix. */
  lemma MissingIsPassed<T>(config: Config, name: string, prefix: string, rest: seq<string>, key: string, parse: string -> Option<T>, default: T)
    requires SameName(name, prefix + key) && (Lower(name) !in config || parse(config[Lower(name)]).None?)
    ensures Lookup(config, [prefix] + rest, key, parse, default) == Lookup(config, rest, key, parse, default)
  {
    assert ([prefix] + rest)[1..] == rest;
  }

  /** A group appended to a chain is what the chain falls back to. */
  lemma {:induction false} LookupFallsBack<T>(config: Config, a: seq<string>, b: seq<string>, key: string, parse: string -> Option<T>, default: T)
    ensures Lookup(config, a + b, key, parse, default) == Lookup(config, a, key, parse, Lookup(config, b, key, parse, default))
  {
    hide ReadSetting;
    if a == [] {
      assert a + b == b;
    } else {
      assert (a + b)[1..] == a[1..] + b;
      LookupFallsBack(config, a[1..], b, key, parse, default);
    }
  }

  /** The chain of a child of a chain: the group chain of each prefix with the suffix added. */
  function ChildChain(config: Config, chain: seq<string>, suffix: string): seq<string> {
    if chain == [] then []
    else GroupChain(config, chain[0] + suffix) + ChildChain(config, chain[1..], suffix)
  }

  /** It is made piece by piece, one prefix at a time. */
  lemma {:induction false} ChildChainAppend(config: Config, a: seq<string>, b: seq<string>, suffix: string)
    ensures ChildChain(config, a + b, suffix) == ChildChain(config, a, suffix) + ChildChain(config, b, suffix)
    ensures forall prefix :: ChildChain(config, [prefix], suffix) == GroupChain(config, prefix + suffix)
  {
    hide GroupChain;
    if a == [] {
      assert a + b == b;
    } else {
      assert (a + b)[1..] == a[1..] + b;
      ChildChainAppend(config, a[1..], b, suffix);
    }
  }

  /** Where no group is set, the child's prefixes are the ones of the parent with the suffix
      behind them. */
  lemma {:induction false} PlainChild(config: Config, chain: seq<string>, suffix: string)
    requires forall i :: 0 <= i < |chain| ==> Lower(chain[i] + suffix) + "group" !in config
    ensures |ChildChain(config, chain, suffix)| == |chain|
    ensures forall i :: 0 <= i < |chain| ==> ChildChain(config, chain, suffix)[i] == chain[i] + suffix
  {
    hide Lower;
    if chain != [] {
      assert Lower(chain[0] + suffix) + "group" !in config;
      PlainChild(config, chain[1..], suffix);
      assert GroupChain(config, chain[0] + suffix) == [chain[0] + suffix];
      forall i | 0 <= i < |chain|
        ensures ChildChain(config, chain, suffix)[i] == chain[i] + suffix
      {
        assert i > 0 ==> chain[i] == chain[1..][i - 1];
      }
    }
  }
}
