/** Storage policy profiles: the inheritance loop check of the configuration, and the resolver that
    applies parent settings. */
module PolicyProfiles {
  import opened Bytes
  import ServerStores
  import Reconcile

  datatype Limit = Text(text: string) | Number(number: int)

  datatype LimitConfig = LimitConfig(timeLimit: Limit, sizeLimit: Limit)

  datatype AckConfig = AckConfig(requiredForAck: bool, sufficientForAck: bool)

  datatype BackfillConfig = BackfillConfig(source: string, exclude: seq<string>, conflict: Reconcile.Conflict)

  datatype Profile = Profile(
    parent: Option<string>,
    limit: LimitConfig,
    deduplication: ServerStores.Strategy,
    ack: AckConfig,
    backfill: BackfillConfig)

  type Profiles = map<string, Profile>

  const DEFAULT := Profile(
    None,
    LimitConfig(Text("10d"), Text("100MB")),
    ServerStores.KeepFirst,
    AckConfig(false, false),
    BackfillConfig("all", [], Reconcile.Refuse))

  // The loop check.

  /** The walk over declared parents from `current` ends within `n` lookups, all of them successful. */
  predicate EndsWithin(profiles: Profiles, current: Option<string>, n: nat)
    decreases n
  {
    current.None?
    || (n > 0 && current.value in profiles && EndsWithin(profiles, profiles[current.value].parent, n - 1))
  }

  ghost predicate Ends(profiles: Profiles, current: Option<string>) {
    exists n: nat :: EndsWithin(profiles, current, n)
  }

  /** A walk that passes `x` and then reaches `current` ends sooner from `current`. */
  ghost predicate Above(profiles: Profiles, x: string, current: Option<string>) {
    forall n: nat :: EndsWithin(profiles, Some(x), n) ==> n > 0 && EndsWithin(profiles, current, n - 1)
  }

  lemma {:induction false} EndsLater(profiles: Profiles, current: Option<string>, n: nat)
    requires EndsWithin(profiles, current, n)
    ensures EndsWithin(profiles, current, n + 1)
    decreases n
  {
    if current.Some? {
      EndsLater(profiles, profiles[current.value].parent, n - 1);
    }
  }

  lemma EndsAfterParent(profiles: Profiles, name: string)
    requires name in profiles
    ensures Ends(profiles, Some(name)) <==> Ends(profiles, profiles[name].parent)
  {
    var parent := profiles[name].parent;
    if Ends(profiles, parent) {
      var n: nat :| EndsWithin(profiles, parent, n);
      assert EndsWithin(profiles, Some(name), n + 1);
    }
    if Ends(profiles, Some(name)) {
      var n: nat :| EndsWithin(profiles, Some(name), n);
      assert EndsWithin(profiles, parent, n - 1);
    }
  }

  /** The walk does not end where it has been. */
  lemma {:induction false} NoEndOnLoop(profiles: Profiles, x: string, n: nat)
    requires Above(profiles, x, Some(x))
    ensures !EndsWithin(profiles, Some(x), n)
    decreases n
  {
    if n > 0 {
      NoEndOnLoop(profiles, x, n - 1);
    }
  }

  lemma AboveStep(profiles: Profiles, x: string, name: string)
    requires name in profiles && (x == name || Above(profiles, x, Some(name)))
    ensures Above(profiles, x, profiles[name].parent)
  {
    var parent := profiles[name].parent;
    forall n: nat | EndsWithin(profiles, Some(x), n)
      ensures n > 0 && EndsWithin(profiles, parent, n - 1)
    {
      if x != name {
        assert EndsWithin(profiles, Some(name), n - 1);
        EndsLater(profiles, parent, n - 2);
      }
    }
  }

  datatype LoopCheck = Accepted | InheritanceLoop | UnknownProfile(name: string)

  /** Accepts exactly the profiles whose walk over parents ends; otherwise it finds the loop or the
      missing name. */
  method CheckProfileLoop(profiles: Profiles, name: string) returns (r: LoopCheck)
    ensures r.Accepted? <==> Ends(profiles, Some(name))
    ensures r.UnknownProfile? ==> r.name !in profiles
    ensures name in profiles
            && (forall k :: k in profiles && profiles[k].parent.Some? ==> profiles[k].parent.value in profiles)
            ==> !r.UnknownProfile?
  {
    hide EndsWithin, Ends, Above;
    var seen: set<string> := {};
    var current := Some(name);
    while current.Some?
      invariant seen <= profiles.Keys
      invariant forall x :: x in seen ==> Above(profiles, x, current)
      invariant Ends(profiles, current) <==> Ends(profiles, Some(name))
      invariant current == Some(name) || exists k :: k in profiles && profiles[k].parent == current
      decreases |profiles.Keys - seen|, current.Some?
    {
      if current.value in seen {
        LoopNeverEnds(profiles, current.value);
        return InheritanceLoop;
      }
      if current.value !in profiles {
        MissingNeverEnds(profiles, current.value);
        return UnknownProfile(current.value);
      }
      OneLess(profiles.Keys, seen, current.value);
      EndsAfterParent(profiles, current.value);
      forall x | x in seen + {current.value}
        ensures Above(profiles, x, profiles[current.value].parent)
      {
        AboveStep(profiles, x, current.value);
      }
      seen := seen + {current.value};
      current := profiles[current.value].parent;
    }
    NothingEnds(profiles);
    return Accepted;
  }

  lemma OneLess(all: set<string>, seen: set<string>, x: string)
    requires x in all && x !in seen
    ensures |all - (seen + {x})| < |all - seen|
  {
    assert all - (seen + {x}) == (all - seen) - {x};
  }

  lemma LoopNeverEnds(profiles: Profiles, x: string)
    requires Above(profiles, x, Some(x))
    ensures !Ends(profiles, Some(x))
  {
    forall n: nat
      ensures !EndsWithin(profiles, Some(x), n)
    {
      NoEndOnLoop(profiles, x, n);
    }
  }

  lemma MissingNeverEnds(profiles: Profiles, x: string)
    requires x !in profiles
    ensures !Ends(profiles, Some(x))
  {
  }

  lemma NothingEnds(profiles: Profiles)
    ensures Ends(profiles, None)
  {
    assert EndsWithin(profiles, None, 0);
  }

  // The resolver. An empty parent name counts as none.

  function ParentOf(p: Profile): Option<string> {
    if p.parent == Some("") then None else p.parent
  }

  /** The resolver's recursion from `name` returns within `n` calls. */
  predicate Resolvable(profiles: Profiles, name: string, n: nat)
    decreases n
  {
    && n > 0 && name in profiles
    && (ParentOf(profiles[name]).Some? ==> Resolvable(profiles, ParentOf(profiles[name]).value, n - 1))
  }

  /** Whatever passes the loop check can be resolved. */
  lemma {:induction false} AcceptedResolves(profiles: Profiles, name: string, n: nat)
    requires EndsWithin(profiles, Some(name), n)
    ensures Resolvable(profiles, name, n)
    decreases n
  {
    if ParentOf(profiles[name]).Some? {
      AcceptedResolves(profiles, ParentOf(profiles[name]).value, n - 1);
    }
  }

  function EffectiveProfile(profiles: Profiles, name: string, ghost fuel: nat): Profile
    requires Resolvable(profiles, name, fuel)
    decreases fuel
  {
    var profile := profiles[name];
    var parentName := ParentOf(profile);
    if parentName.None? then profile
    else
      var parent := EffectiveProfile(profiles, parentName.value, fuel - 1);
      Profile(
        profile.parent,
        if profile.limit != DEFAULT.limit then profile.limit else parent.limit,
        if profile.deduplication != DEFAULT.deduplication then profile.deduplication else parent.deduplication,
        if profile.ack != DEFAULT.ack then profile.ack else parent.ack,
        if profile.backfill != DEFAULT.backfill then profile.backfill else parent.backfill)
  }

  /** The profile and its ancestors, nearest first. */
  ghost function Chain(profiles: Profiles, name: string, fuel: nat): (chain: seq<Profile>)
    requires Resolvable(profiles, name, fuel)
    ensures chain != [] && chain[0] == profiles[name]
    decreases fuel
  {
    var parentName := ParentOf(profiles[name]);
    [profiles[name]] + (if parentName.None? then [] else Chain(profiles, parentName.value, fuel - 1))
  }

  /** Each element of the chain is the parent of the one before it, and the last one has none. */
  lemma {:induction false} ChainFollowsParents(profiles: Profiles, name: string, fuel: nat)
    requires Resolvable(profiles, name, fuel)
    ensures var chain := Chain(profiles, name, fuel);
            && chain[|chain| - 1].parent in {None, Some("")}
            && (forall i :: 0 <= i < |chain| - 1 ==> IsParentOf(profiles, chain[i + 1], chain[i]))
    decreases fuel
  {
    var parentName := ParentOf(profiles[name]);
    if parentName.Some? {
      var rest := Chain(profiles, parentName.value, fuel - 1);
      ChainFollowsParents(profiles, parentName.value, fuel - 1);
      var chain := Chain(profiles, name, fuel);
      assert chain == [profiles[name]] + rest;
      forall i | 0 <= i < |chain| - 1
        ensures IsParentOf(profiles, chain[i + 1], chain[i])
      {
        if i > 0 {
          assert IsParentOf(profiles, rest[i - 1 + 1], rest[i - 1]);
        }
      }
    }
  }

  predicate IsParentOf(profiles: Profiles, parent: Profile, child: Profile) {
    child.parent.Some? && child.parent.value != "" && child.parent.value in profiles
    && profiles[child.parent.value] == parent
  }

  function LimitOf(p: Profile): LimitConfig {
    p.limit
  }

  function DeduplicationOf(p: Profile): ServerStores.Strategy {
    p.deduplication
  }

  function AckOf(p: Profile): AckConfig {
    p.ack
  }

  function BackfillOf(p: Profile): BackfillConfig {
    p.backfill
  }

  /** `value` is the setting of the first profile on the chain that differs from the type default,
      or the default when none does. */
  ghost predicate FirstSetting<T>(chain: seq<Profile>, setting: Profile -> T, default: T, value: T) {
    || (value == default && forall i :: 0 <= i < |chain| ==> setting(chain[i]) == default)
    || exists i :: 0 <= i < |chain| && setting(chain[i]) == value != default
                   && forall j :: 0 <= j < i ==> setting(chain[j]) == default
  }

  lemma FirstSettingOfOne<T>(p: Profile, setting: Profile -> T, default: T)
    ensures FirstSetting([p], setting, default, setting(p))
  {
    if setting(p) != default {
      assert setting([p][0]) == setting(p);
    }
  }

  lemma FirstSettingBefore<T>(p: Profile, chain: seq<Profile>, setting: Profile -> T, default: T, value: T)
    requires FirstSetting(chain, setting, default, value)
    ensures FirstSetting([p] + chain, setting, default, if setting(p) != default then setting(p) else value)
  {
    var all := [p] + chain;
    if setting(p) != default {
      assert setting(all[0]) == setting(p);
    } else if value != default {
      var i :| 0 <= i < |chain| && setting(chain[i]) == value
               && forall j :: 0 <= j < i ==> setting(chain[j]) == default;
      assert setting(all[i + 1]) == value;
      assert forall j :: 0 <= j < i + 1 ==> setting(all[j]) == default;
    }
  }

  /** Resolution gives every setting of the nearest profile on the parent chain that sets it. */
  lemma {:induction false} SettingsComeFromChain(profiles: Profiles, name: string, fuel: nat)
    requires Resolvable(profiles, name, fuel)
    ensures var chain, effective := Chain(profiles, name, fuel), EffectiveProfile(profiles, name, fuel);
            && FirstSetting(chain, LimitOf, DEFAULT.limit, effective.limit)
            && FirstSetting(chain, DeduplicationOf, DEFAULT.deduplication, effective.deduplication)
            && FirstSetting(chain, AckOf, DEFAULT.ack, effective.ack)
            && FirstSetting(chain, BackfillOf, DEFAULT.backfill, effective.backfill)
    decreases fuel
  {
    hide FirstSetting;
    var profile, parentName := profiles[name], ParentOf(profiles[name]);
    if parentName.None? {
      assert Chain(profiles, name, fuel) == [profile];
      FirstSettingOfOne(profile, LimitOf, DEFAULT.limit);
      FirstSettingOfOne(profile, DeduplicationOf, DEFAULT.deduplication);
      FirstSettingOfOne(profile, AckOf, DEFAULT.ack);
      FirstSettingOfOne(profile, BackfillOf, DEFAULT.backfill);
    } else {
      SettingsComeFromChain(profiles, parentName.value, fuel - 1);
      var rest, parent := Chain(profiles, parentName.value, fuel - 1),
        EffectiveProfile(profiles, parentName.value, fuel - 1);
      FirstSettingBefore(profile, rest, LimitOf, DEFAULT.limit, parent.limit);
      FirstSettingBefore(profile, rest, DeduplicationOf, DEFAULT.deduplication, parent.deduplication);
      FirstSettingBefore(profile, rest, AckOf, DEFAULT.ack, parent.ack);
      FirstSettingBefore(profile, rest, BackfillOf, DEFAULT.backfill, parent.backfill);
    }
  }

  /** The recursion bound does not matter. */
  lemma {:induction false} FuelIrrelevant(profiles: Profiles, name: string, m: nat, n: nat)
    requires Resolvable(profiles, name, m) && Resolvable(profiles, name, n)
    ensures EffectiveProfile(profiles, name, m) == EffectiveProfile(profiles, name, n)
    decreases m
  {
    if ParentOf(profiles[name]).Some? {
      FuelIrrelevant(profiles, ParentOf(profiles[name]).value, m - 1, n - 1);
    }
  }

  /** Resolving a profile that passed the loop check terminates. */
  method Resolve(profiles: Profiles, name: string) returns (r: Option<Profile>)
    ensures r.Some? <==> Ends(profiles, Some(name))
    ensures r.Some? ==>
              forall n: nat :: Resolvable(profiles, name, n) ==> r.value == EffectiveProfile(profiles, name, n)
    ensures r.Some? ==> exists n: nat :: Resolvable(profiles, name, n)
  {
    var check := CheckProfileLoop(profiles, name);
    if !check.Accepted? {
      return None;
    }
    ghost var n: nat :| EndsWithin(profiles, Some(name), n);
    AcceptedResolves(profiles, name, n);
    var effective := EffectiveProfile(profiles, name, n);
    forall m: nat | Resolvable(profiles, name, m)
      ensures effective == EffectiveProfile(profiles, name, m)
    {
      FuelIrrelevant(profiles, name, n, m);
    }
    return Some(effective);
  }
}
