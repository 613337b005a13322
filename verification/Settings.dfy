/** Settings (nShared/Settings.cpp): a prefix together with the settings to fall back to, each
    object owning the next one. */
module Settings {
  import opened Text
  import opened GroupChains

  class Settings {
    const prefix: string
    var group: Settings?
    /** For the head of a chain: this object and the ones behind it, up to the last. */
    ghost var spine: seq<Settings>

    constructor (prefix: string, group: Settings?, ghost rest: seq<Settings>)
      requires Chained(rest) && (if rest == [] then group == null else group == rest[0])
      ensures Valid() && spine == [this] + rest && this.prefix == prefix && this !in rest
    {
      this.prefix := prefix;
      this.group := group;
      spine := [this] + rest;
      new;
      forall i {:trigger spine[i].group} | 0 <= i < |spine| - 1 ensures spine[i].group == spine[i + 1] {
        assert i > 0 ==> spine[i] == rest[i - 1] && rest[i - 1].group == rest[i];
      }
    }

    ghost predicate Valid()
      reads this, spine
    {
      spine != [] && spine[0] == this && Chained(spine)
    }

    /** The prefixes along the chain. */
    ghost function Prefixes(): (r: seq<string>)
      reads this
    {
      PrefixesOf(spine)
    }

    /** The value of a setting at this object, with everything behind it as the default. This
        object is the `i`-th of the chain `all`. */
    function GetFrom<T>(config: Config, key: string, parse: string -> Option<T>, default: T, ghost all: seq<Settings>, ghost i: nat): (r: T)
      requires Chained(all) && i < |all| && all[i] == this
      reads this, all
      ensures r == Lookup(config, PrefixesOf(all[i..]), key, parse, default)
      decreases |all| - i
    {
      PrefixesStep(all, i);
      var fallback := if group != null then group.GetFrom(config, key, parse, default, all, i + 1) else default;
      match ReadSetting(config, prefix, key, parse)
      case Some(value) => value
      case None => fallback
    }

    /** The value of a setting: the first one along the chain. */
    function Get<T>(config: Config, key: string, parse: string -> Option<T>, default: T): (r: T)
      requires Valid()
      reads this, spine
      ensures r == Lookup(config, Prefixes(), key, parse, default)
    {
      assert spine[0..] == spine;
      GetFrom(config, key, parse, default, spine, 0)
    }

    /** Builds the settings of a prefix with the groups the configuration names. */
    static method Create(config: Config, prefix: string) returns (s: Settings)
      ensures s.Valid() && fresh(s.spine) && s.Prefixes() == GroupChain(config, prefix)
    {
      s := CreateWithTrail(config, prefix, []);
    }

    static method CreateWithTrail(config: Config, prefix: string, trail: seq<string>) returns (s: Settings)
      requires GoodTrail(config, trail, prefix)
      ensures s.Valid() && fresh(s.spine) && s.Prefixes() == Chain(config, prefix, trail)
      decreases |Unused(config, trail)|, 1
    {
      ghost var rest: seq<Settings>;
      var group;
      group, rest := CreateGroup(config, prefix, trail);
      s := new Settings(prefix, group, rest);
      PrefixesOfCons(s, rest);
    }

    /** The group of a prefix, unless there is none or it would close a circle. */
    static method CreateGroup(config: Config, prefix: string, trail: seq<string>) returns (group: Settings?, ghost rest: seq<Settings>)
      requires GoodTrail(config, trail, prefix)
      ensures Chained(rest) && fresh(rest) && (if rest == [] then group == null else group == rest[0])
      ensures Chain(config, prefix, trail) == [prefix] + PrefixesOf(rest)
      decreases |Unused(config, trail)|, 0
    {
      var name := GroupOf(config, prefix);
      if name == "" {
        return null, [];
      }
      for i := 0 to |trail|
        invariant !InTrail(trail[..i], name)
      {
        assert trail[..i + 1] == trail[..i] + [trail[i]];
        InLongerTrail(trail[..i], trail[i], name);
        if SameName(trail[i], name) {
          return null, [];
        }
      }
      assert trail[..|trail|] == trail;
      TrailGrows(config, trail, prefix);
      group := CreateWithTrail(config, name, trail + [prefix]);
      rest := group.spine;
    }

    /** A deep copy of the chain from `this`, the `i`-th of `all`, on. */
    method Copy(ghost all: seq<Settings>, ghost i: nat) returns (s: Settings)
      requires Chained(all) && i < |all| && all[i] == this
      ensures s.Valid() && fresh(s.spine) && s.Prefixes() == PrefixesOf(all[i..])
      decreases |all| - i
    {
      hide PrefixesOf;
      PrefixesStep(all, i);
      ghost var rest: seq<Settings> := [];
      var copy: Settings? := null;
      if group != null {
        copy := group.Copy(all, i + 1);
        rest := copy.spine;
      }
      s := new Settings(prefix, copy, rest);
      PrefixesOfCons(s, rest);
    }

    /** Hangs another chain behind the last object of this one. */
    method LinkBehind(more: Settings)
      requires Valid() && more.Valid()
      requires forall s :: s in more.spine ==> s !in spine
      modifies this`spine, spine`group
      ensures Valid() && spine == old(spine) + old(more.spine)
      ensures Prefixes() == old(Prefixes()) + old(more.Prefixes())
    {
      var tail := this;
      ghost var i := 0;
      while tail.group != null
        invariant 0 <= i < |spine| && tail == spine[i]
        decreases |spine| - i
      {
        tail := tail.group;
        i := i + 1;
      }
      ghost var front, back := spine, more.spine;
      forall j, k | 0 <= j < |front| && 0 <= k < |back| ensures front[j] != back[k] {
        assert front[j] in spine && back[k] in more.spine;
      }
      tail.group := more;
      Joined(front, back);
      spine := front + back;
    }

    /** Makes the settings fall back to a copy of `fallback`, behind everything else. */
    method AppendGroup(fallback: Settings)
      requires Valid() && fallback.Valid()
      modifies this`spine, spine`group
      ensures Valid() && Prefixes() == old(Prefixes()) + old(fallback.Prefixes())
      ensures |old(spine)| < |spine| && spine[..|old(spine)|] == old(spine) && fresh(spine[|old(spine)|..])
    {
      assert fallback.spine[0..] == fallback.spine;
      var copy := fallback.Copy(fallback.spine, 0);
      LinkBehind(copy);
    }

    /** The settings of everything whose name starts with these prefixes and `suffix`. */
    method CreateChild(config: Config, suffix: string) returns (head: Settings)
      requires Valid()
      ensures head.Valid() && fresh(head.spine) && head.Prefixes() == ChildChain(config, Prefixes(), suffix)
    {
      hide GroupChain, ChildChain, PrefixesOf;
      head := Create(config, prefix + suffix);
      var thisTail := this;
      ghost var i := 0;
      FirstChild(config, spine, suffix);
      while thisTail.group != null
        invariant 0 <= i < |spine| && thisTail == spine[i]
        invariant head.Valid() && fresh(head.spine)
        invariant head.Prefixes() == ChildChain(config, PrefixesOf(spine[..i + 1]), suffix)
        decreases |spine| - i
      {
        thisTail := thisTail.group;
        var more := Create(config, thisTail.prefix + suffix);
        head.LinkBehind(more);
        NextChild(config, spine, i, suffix);
        i := i + 1;
      }
      assert spine[..i + 1] == spine;
    }
  }

  /** Each object leads to the next, the last to nothing, and none occurs twice. */
  ghost predicate Chained(spine: seq<Settings>)
    reads spine
  {
    && (forall i {:trigger spine[i].group} :: 0 <= i < |spine| - 1 ==> spine[i].group == spine[i + 1])
    && (spine != [] ==> spine[|spine| - 1].group == null)
    && (forall i, j :: 0 <= i < j < |spine| ==> spine[i] != spine[j])
  }

  ghost function PrefixesOf(spine: seq<Settings>): (r: seq<string>)
    ensures |r| == |spine| && forall i :: 0 <= i < |r| ==> r[i] == spine[i].prefix
  {
    seq(|spine|, i requires 0 <= i < |spine| => spine[i].prefix)
  }

  lemma PrefixesStep(all: seq<Settings>, i: nat)
    requires Chained(all) && i < |all|
    ensures PrefixesOf(all[i..]) == [all[i].prefix] + PrefixesOf(all[i + 1..])
    ensures if i + 1 < |all| then all[i].group == all[i + 1] else all[i].group == null && PrefixesOf(all[i + 1..]) == []
  {
    assert all[i..][1..] == all[i + 1..];
  }

  lemma PrefixesOfCons(first: Settings, rest: seq<Settings>)
    ensures PrefixesOf([first] + rest) == [first.prefix] + PrefixesOf(rest)
  {
  }

  /** Two chains that share nothing, the last of one leading to the first of the other. */
  lemma Joined(front: seq<Settings>, back: seq<Settings>)
    requires front != [] && back != [] && Chained(back)
    requires forall i {:trigger front[i].group} :: 0 <= i < |front| - 1 ==> front[i].group == front[i + 1]
    requires front[|front| - 1].group == back[0]
    requires forall i, j :: 0 <= i < j < |front| ==> front[i] != front[j]
    requires forall i, j :: 0 <= i < |front| && 0 <= j < |back| ==> front[i] != back[j]
    ensures Chained(front + back) && PrefixesOf(front + back) == PrefixesOf(front) + PrefixesOf(back)
  {
    var all := front + back;
    forall i {:trigger all[i].group} | 0 <= i < |all| - 1 ensures all[i].group == all[i + 1] {
      if i < |front| - 1 {
        assert all[i] == front[i];
      } else if i >= |front| {
        assert all[i] == back[i - |front|] && back[i - |front|].group == back[i - |front| + 1];
      }
    }
    assert all[|all| - 1] == back[|back| - 1];
  }

  lemma FirstChild(config: Config, spine: seq<Settings>, suffix: string)
    requires spine != []
    ensures ChildChain(config, PrefixesOf(spine[..1]), suffix) == GroupChain(config, spine[0].prefix + suffix)
  {
    assert PrefixesOf(spine[..1])[1..] == [];
  }

  lemma NextChild(config: Config, spine: seq<Settings>, i: nat, suffix: string)
    requires i + 1 < |spine|
    ensures ChildChain(config, PrefixesOf(spine[..i + 2]), suffix) ==
            ChildChain(config, PrefixesOf(spine[..i + 1]), suffix) + GroupChain(config, spine[i + 1].prefix + suffix)
  {
    assert PrefixesOf(spine[..i + 2]) == PrefixesOf(spine[..i + 1]) + [spine[i + 1].prefix];
    ChildChainAppend(config, PrefixesOf(spine[..i + 1]), [spine[i + 1].prefix], suffix);
    assert [spine[i + 1].prefix][1..] == [];
  }
}
