/** The logger levels of src/logging.c, kept in the hash map of src/hash_map.c.

    A stored key is a pointer to a heap copy of the name: `block` is that allocation, and two
    names compare equal when their texts do.  The map does not own the copies; the logger does.
 */
module Logging {
  import opened Wrappers
  import opened Allocation
  import opened ArrayLists
  import opened Buckets
  import opened BucketArrays
  import opened HashMaps
  import opened PowersOfTwo
  import opened LoggerLevels

  datatype Name = Name(text: string, block: Block)

  type NameEntry = Entry<Name, int>
  type Severities = HashMap<Name, int, string>

  ghost predicate ByText(h: Hasher<Name, string>) {
    forall n :: h.ident(n) == n.text
  }

  ghost function Levels(m: map<string, NameEntry>): map<string, int> {
    map k | k in m :: m[k].value
  }

  /** The heap copies of the stored names. */
  ghost function NameBlocks(items: seq<NameEntry>): multiset<Block> {
    Sum((e: NameEntry) => multiset{e.key.block}, items)
  }

  /** `rcutils_find_lastn`: the last separator among the first `length` characters. */
  method FindLastN(str: string, length: nat) returns (index: Option<nat>)
    requires length <= |str|
    ensures index.None? ==> forall n :: 0 <= n < length ==> str[n] != '.'
    ensures index.Some? ==> index.value < length && str[index.value] == '.'
    ensures index.Some? ==> forall n :: index.value < n < length ==> str[n] != '.'
  {
    if length == 0 {
      return None;
    }
    var i: nat := length - 1;
    while i > 0
      invariant i < length && forall n :: i < n < length ==> str[n] != SEPARATOR
    {
      if str[i] == SEPARATOR {
        return Some(i);
      }
      i := i - 1;
    }
    index := if str[0] == SEPARATOR then Some(0) else None;
  }

  class Logger {
    const alloc: Allocator
    const severities: Severities
    var defaultLevel: int

    ghost predicate Valid()
      reads severities, alloc
    {
      severities.Valid() && alloc.Valid() && ByText(severities.h)
    }

    /** Everything the logger owns, beside what the caller names. */
    ghost predicate Balanced(rest: multiset<Block>)
      reads severities, alloc
    {
      alloc.live == rest + NameBlocks(severities.Listing()) + severities.Owned()
    }

    ghost function LevelMap(): map<string, int>
      reads severities
    {
      Levels(severities.m)
    }

    constructor (alloc: Allocator, severities: Severities, defaultLevel: int)
      ensures this.alloc == alloc && this.severities == severities && this.defaultLevel == defaultLevel
    {
      this.alloc, this.severities, this.defaultLevel := alloc, severities, defaultLevel;
    }

    /** `rcutils_logging_set_default_logger_level`. */
    method SetDefaultLevel(level: int)
      modifies this`defaultLevel
      ensures defaultLevel == if level == 0 then 20 else level
    {
      defaultLevel := if level == UNSET then INFO else level;
    }

    /** `get_severity_level`: the stored level without its mark. */
    method GetSeverityLevel(name: string) returns (ret: Ret, severity: int)
      requires Valid()
      ensures name in severities.m ==> ret == Ok && severity == LevelOf(LevelMap(), name)
      ensures name !in severities.m ==> ret == NotFound && severity == UNSET == LevelOf(LevelMap(), name)
    {
      var found, level := severities.Get(Name(name, 0));
      if found != Ok {
        return found, UNSET;
      }
      return Ok, Unmark(level.value);
    }

    /** The slow path: shorten the name at its last dot until a level is found or no dot is left. */
    method SearchAncestors(name: string) returns (severity: int)
      requires Valid() && LevelOf(LevelMap(), name) == UNSET
      ensures Effective(LevelMap(), defaultLevel, name) == if severity == UNSET then defaultLevel else severity
    {
      hide HashMap.Valid;
      ghost var levels := LevelMap();
      severity := UNSET;
      var length: nat := |name|;
      assert name[..length] == name;
      while true
        invariant length <= |name| && severity == UNSET && LevelOf(levels, name[..length]) == UNSET
        invariant Effective(levels, defaultLevel, name) == EffectiveFrom(levels, defaultLevel, name, length)
        decreases length
      {
        var index := FindLastN(name, length);
        if index.None? {
          NoneDecides(levels, defaultLevel, name, length);
          break;
        }
        SkipTo(levels, defaultLevel, name, length, index.value);
        length := index.value;
        var ret;
        ret, severity := GetSeverityLevel(name[..length]);
        if severity != UNSET {
          break;
        }
      }
    }

    /** `rcutils_logging_get_logger_effective_level`; -1 when the copy of the name cannot be
        allocated.  The shortcut for an empty map agrees with the search. */
    method GetEffectiveLevel(name: string, ghost rest: multiset<Block>) returns (level: int)
      requires Valid() && Balanced(rest)
      modifies alloc
      ensures Valid() && Balanced(rest)
      ensures var refused := LevelMap() != map[] && LevelOf(LevelMap(), name) == UNSET && alloc.fails(old(alloc.calls));
              level == if refused then -1 else Effective(LevelMap(), defaultLevel, name)
    {
      hide HashMap.Valid, HashMap.Owned, HashMap.Listing, NameBlocks, LevelOf, Effective, LevelMap;
      SomeLevels(this, name);
      if severities.size == 0 {
        return defaultLevel;
      }
      var ret, severity := GetSeverityLevel(name);
      if severity != UNSET {
        DecidedByName(LevelMap(), defaultLevel, name);
        return severity;
      }
      var copy := alloc.Allocate();
      if copy.None? {
        return -1;
      }
      severity := SearchAncestors(name);
      alloc.Deallocate(copy, old(alloc.live));
      level := if severity == UNSET then defaultLevel else severity;
    }

    /** Unset a stored name and free its copy. */
    method Drop(key: Name, ghost p: nat, ghost rest: multiset<Block>)
      requires Valid() && Balanced(rest) && p < |severities.Listing()| && severities.Listing()[p].key == key
      modifies severities, alloc`live
      ensures Valid() && Balanced(rest)
      ensures severities.Listing() == Without(old(severities.Listing()), p)
      ensures severities.m == old(severities.m) - {key.text}
      ensures severities.HasRoom(key.text) && forall k :: old(severities.HasRoom(k)) ==> severities.HasRoom(k)
    {
      hide HashMap.Valid, HashMap.Owned, HashMap.Listing, NameBlocks, Removed, Without, Lists, HashMap.HasRoom;
      ListedInMap(this);
      ghost var before := severities.Listing();
      severities.Unset(key, alloc, rest + NameBlocks(before));
      RemovedAt(severities.h, before, severities.Listing(), p);
      NameDropped(before, p);
      ghost var others := rest + NameBlocks(severities.Listing());
      MoveLast(rest, NameBlocks(severities.Listing()), multiset{key.block}, severities.Owned());
      alloc.Deallocate(Some(key.block), others + severities.Owned());
    }

    /** One round of the sweep: the successor is fetched by key before the entry is unset. */
    method SweepOne(name: string, current: Name, currentLevel: int, ghost all: seq<NameEntry>, ghost n: nat,
                    ghost rest: multiset<Block>)
      returns (ret: Ret, key: Option<Name>, level: Option<int>)
      requires Valid() && Balanced(rest)
      requires SweepAt(name, all, n, severities.Listing(), Ok, Some(current), Some(currentLevel))
      modifies severities, alloc`live
      ensures Valid() && Balanced(rest)
      ensures n < |all| && SweepAt(name, all, n + 1, severities.Listing(), ret, key, level)
      ensures old(name in severities.m || severities.HasRoom(name)) ==> name in severities.m || severities.HasRoom(name)
    {
      hide HashMap.Valid, HashMap.Owned, HashMap.Listing, NameBlocks, Lists, SweepAt, Balanced, Kept, HashMap.HasRoom;
      ghost var listing := severities.Listing();
      SweepCurrent(name, all, n, listing, Ok, Some(current), Some(currentLevel));
      ghost var p := |Kept(name, all[..n])|;
      var freeCurrent := name <= current.text && (current.text == name || currentLevel % 2 == 0);
      assert freeCurrent == Doomed(name, all[n]) && severities.h.Id(all[n]) == severities.h.ident(current);
      ret, key, level := severities.GetNext(Some(current));
      if freeCurrent {
        Drop(current, p, rest);
      }
      SweepAdvance(name, all, n, listing, severities.Listing(), ret, key, level);
    }

    /** The sweep of `rcutils_logging_set_logger_level`: round `n` handles entry `n` of the original
        listing, and there are as many rounds as entries. */
    method Sweep(name: string, ghost rest: multiset<Block>) returns (ghost rounds: nat)
      requires Valid() && Balanced(rest)
      modifies severities, alloc`live
      ensures Valid() && Balanced(rest)
      ensures rounds == |old(severities.Listing())|
      ensures severities.Listing() == Kept(name, old(severities.Listing()))
      ensures severities.m == Swept(name, old(severities.m))
      ensures name in old(severities.m) ==> severities.HasRoom(name)
      ensures forall k ::
                k in severities.m <==> k in old(severities.m) && !SweptAway(name, k, old(severities.m)[k].value)
      ensures forall k :: k in severities.m ==> severities.m[k] == old(severities.m)[k]
    {
      hide *;
      ghost var all, before := severities.Listing(), severities.m;
      ListedInMap(this);
      rounds := 0;
      var ret, key, level := severities.GetNext(None);
      SweepStart(name, all, ret, key, level);
      while ret == Ok
        invariant Valid() && Balanced(rest)
        invariant rounds <= |all| && SweepAt(name, all, rounds, severities.Listing(), ret, key, level)
        invariant name in before ==> name in severities.m || severities.HasRoom(name)
        decreases |all| - rounds
      {
        SweepCurrent(name, all, rounds, severities.Listing(), ret, key, level);
        ret, key, level := SweepOne(name, key.value, level.value, all, rounds, rest);
        rounds := rounds + 1;
      }
      SweepEnd(name, all, rounds, severities.Listing(), ret, key, level);
      SweptMap(this, name, all, before);
      SweptMeans(name, before);
      NameIsSwept(this, name, before);
    }

    /** The `rcutils_hash_map_set` of `add_key_to_hash_map`; `copied` is the new copy, if any. */
    method StoreKey(copy: Name, stored: int, ghost copied: multiset<Block>, ghost rest: multiset<Block>)
      returns (ret: Ret)
      requires Valid() && Balanced(rest + copied)
      requires copied == if copy.text in severities.m then multiset{} else multiset{copy.block}
      modifies severities, alloc
      ensures Valid() && alloc.calls >= old(alloc.calls)
      ensures ret == Ok ==> Balanced(rest) && LevelMap() == old(LevelMap())[copy.text := stored]
      ensures ret != Ok ==> Balanced(rest + copied) && severities.m == old(severities.m) && copy.text !in severities.m
      ensures alloc.NoFailure(old(alloc.calls), alloc.calls) ==> ret == Ok
      ensures ret != Ok <==> old(severities.StoreFails(copy.text, alloc.fails, alloc.calls))
      ensures ret == Ok ==> severities.Grown(old(severities.PlanFor(copy.text, alloc.calls)), alloc)
    {
      hide HashMap.Valid, HashMap.Owned, HashMap.Listing, NameBlocks;
      hide Lists, HashMap.StoreFails, HashMap.StoreCalls, HashMap.PlanFor, HashMap.Grown;
      ghost var before, listing := severities.m, severities.Listing();
      ListedInMap(this);
      ret := severities.Set(copy, stored, alloc, rest + copied + NameBlocks(listing));
      if ret == Ok {
        ListedInMap(this);
        NameAdded(this, listing, before, copy.text);
        MoveLast(rest, NameBlocks(listing), copied, severities.Owned());
      }
    }

    /** `add_key_to_hash_map`.  When the copy of a new name was made but the map cannot store it,
        the copy stays allocated and nobody refers to it: it is `leaked`. */
    method AddKey(name: string, level: int, setByUser: bool, ghost rest: multiset<Block>)
      returns (ret: Ret, ghost leaked: multiset<Block>)
      requires Valid() && Balanced(rest)
      modifies severities, alloc
      ensures Valid() && Balanced(rest + leaked)
      ensures ret == Ok || ret == Error
      ensures alloc.NoFailure(old(alloc.calls), alloc.calls) ==> ret == Ok
      ensures ret == Ok ==>
                leaked == multiset{} && LevelMap() == old(LevelMap())[name := if setByUser then Mark(level) else level]
      ensures ret == Error ==> severities.m == old(severities.m) && name !in severities.m
      ensures ret == Error <==>
              && name !in old(severities.m)
              && (alloc.fails(old(alloc.calls)) || old(severities.StoreFails(name, alloc.fails, alloc.calls + 1)))
      ensures |leaked| == if ret == Error && !alloc.fails(old(alloc.calls)) then 1 else 0
      ensures ret == Ok && name !in old(severities.m) ==>
                severities.Grown(old(severities.PlanFor(name, alloc.calls + 1)), alloc)
    {
      hide HashMap.Valid, HashMap.Owned, HashMap.Listing, NameBlocks, Lists;
      hide Levels, HashMap.StoreFails, HashMap.StoreCalls, HashMap.PlanFor, HashMap.Grown;
      hide Allocator.NoFailure, Balanced;
      StoreFailsNever(severities, name, alloc.fails, alloc.calls);
      var stored := if setByUser then Mark(level) else level;
      leaked := multiset{};
      assert rest + leaked == rest;
      var exists_ := severities.KeyExists(Name(name, 0));
      if exists_ {
        ret := StoreKey(Name(name, 0), stored, multiset{}, rest);
      } else {
        ret, leaked := AddNew(name, stored, rest);
      }
    }

    method AddNew(name: string, stored: int, ghost rest: multiset<Block>)
      returns (ret: Ret, ghost leaked: multiset<Block>)
      requires Valid() && Balanced(rest) && name !in severities.m
      modifies severities, alloc
      ensures Valid() && Balanced(rest + leaked) && (ret == Ok || ret == Error)
      ensures alloc.NoFailure(old(alloc.calls), alloc.calls) ==> ret == Ok
      ensures ret == Ok ==> LevelMap() == old(LevelMap())[name := stored]
      ensures ret == Error ==> severities.m == old(severities.m)
      ensures ret == Error <==>
              alloc.fails(old(alloc.calls)) || old(severities.StoreFails(name, alloc.fails, alloc.calls + 1))
      ensures |leaked| == if ret == Error && !alloc.fails(old(alloc.calls)) then 1 else 0
      ensures ret == Ok ==> severities.Grown(old(severities.PlanFor(name, alloc.calls + 1)), alloc)
    {
      hide HashMap.Valid, HashMap.Owned, HashMap.Listing, NameBlocks, Lists;
      hide Levels, HashMap.StoreFails, HashMap.StoreCalls, HashMap.PlanFor, HashMap.Grown;
      hide Allocator.NoFailure, Balanced, LevelMap;
      leaked := multiset{};
      assert rest + leaked == rest;
      BalancedIs(this, rest);
      var block := alloc.Allocate();
      if block.None? {
        FailedAt(alloc, old(alloc.calls), old(alloc.calls), alloc.calls);
        BalancedWith(this, rest);
        return Error, leaked;
      }
      ghost var copied := multiset{block.value};
      MoveLast(rest, NameBlocks(severities.Listing()), copied, severities.Owned());
      BalancedWith(this, rest + copied);
      ghost var middle := alloc.calls;
      ret := StoreKey(Name(name, block.value), stored, copied, rest);
      FailedLater(alloc, old(alloc.calls), middle, alloc.calls);
      if ret != Ok {
        return Error, copied;
      }
    }

    method SweepIfPresent(name: string, ghost rest: multiset<Block>)
      requires Valid() && Balanced(rest)
      modifies severities, alloc`live
      ensures Valid() && Balanced(rest)
      ensures LevelMap() == AfterSweep(name, old(LevelMap())) && name !in severities.m
      ensures if name in old(severities.m) then severities.HasRoom(name) else unchanged(severities)
    {
      hide HashMap.Valid, HashMap.Owned, HashMap.Listing, NameBlocks, Lists, Balanced, HashMap.HasRoom;
      ListedInMap(this);
      LevelsSwept(name, severities.m);
      var exists_ := severities.KeyExists(Name(name, 0));
      if exists_ {
        ghost var rounds := Sweep(name, rest);
      }
    }

    /** A request for the copy of the name, for its entry, or for room in its bucket fails.  A name that
        was stored leaves room behind. */
    ghost predicate SettingFails(name: string)
      reads severities, alloc
    {
      || alloc.fails(alloc.calls)
      || alloc.fails(alloc.calls + 1) || alloc.fails(alloc.calls + 2) || alloc.fails(alloc.calls + 3)
      || (!Stored(name) && InsertFails(alloc.fails, alloc.calls + 4, severities.BucketOf(name)))
    }

    ghost predicate Stored(name: string)
      reads severities
    {
      name in LevelMap()
    }

    /** The map part of `rcutils_logging_set_logger_level`: sweep, then add the name as user-set. */
    method Replace(name: string, level: int, ghost rest: multiset<Block>)
      returns (ret: Ret, ghost leaked: multiset<Block>)
      requires Valid() && Balanced(rest)
      modifies severities, alloc
      ensures Valid() && Balanced(rest + leaked)
      ensures ret == Error <==> old(SettingFails(name))
      ensures LevelMap() ==
              if ret == Ok then AfterSweep(name, old(LevelMap()))[name := Mark(level)]
              else AfterSweep(name, old(LevelMap()))
      ensures ret == Ok || ret == Error
      ensures |leaked| == if ret == Error && !alloc.fails(old(alloc.calls)) then 1 else 0
      ensures alloc.NoFailure(old(alloc.calls), alloc.calls) ==> ret == Ok
      ensures ret == Ok && !old(Stored(name)) ==>
                severities.Grown(old(severities.PlanFor(name, alloc.calls + 1)), alloc)
    {
      hide Valid, Balanced, AfterSweep, Mark;
      hide Levels, HashMap.StoreFails, HashMap.StoreCalls, HashMap.PlanFor, HashMap.Grown;
      StoredIs(this, name);
      SweepIfPresent(name, rest);
      AfterSweepFails(severities, name, alloc.fails, alloc.calls + 1);
      ret, leaked := AddKey(name, level, true, rest);
    }

    /** `rcutils_logging_set_logger_level`.  A call that fails after the sweep has removed `name`
        forgets the level the name had. */
    method SetLevel(name: string, level: int, ghost rest: multiset<Block>)
      returns (ret: Ret, ghost leaked: multiset<Block>)
      requires Valid() && Balanced(rest)
      modifies this`defaultLevel, severities, alloc
      ensures Valid() && Balanced(rest + leaked)
      ensures SetTo(old(LevelMap()), old(defaultLevel), Setting(name, level), ret, LevelMap(), defaultLevel)
      ensures ret == Error <==> IsSeverity(level) && old(SettingFails(name))
      ensures ret == Error ==> (LevelMap() != old(LevelMap()) <==> old(Stored(name)))
      ensures |leaked| == if ret == Error && !alloc.fails(old(alloc.calls)) then 1 else 0
      ensures alloc.NoFailure(old(alloc.calls), alloc.calls) && IsSeverity(level) ==> ret == Ok
      ensures ret == InvalidArgument <==> level !in {0, 10, 20, 30, 40, 50}
      ensures ret == Ok ==> LevelOf(LevelMap(), name) == level
      ensures ret == Ok && level != 0 ==> Effective(LevelMap(), defaultLevel, name) == level
      ensures ret == Ok && !old(Stored(name)) ==>
                severities.Grown(old(severities.PlanFor(name, alloc.calls + 1)), alloc)
    {
      hide Valid, Balanced, AfterSweep, Mark;
      hide LevelMap, SettingFails, HashMap.StoreCalls, HashMap.PlanFor, HashMap.Grown;
      ret, leaked := InvalidArgument, multiset{};
      assert rest + leaked == rest;
      SweepForgets(name, LevelMap());
      SeverityMeans(level);
      ghost var swept := AfterSweep(name, LevelMap());
      if IsSeverity(level) {
        ret, leaked := Replace(name, level, rest);
        if |name| == 0 {
          defaultLevel := level;
        }
        LevelIsRead(swept, defaultLevel, name, level);
      }
    }

    /** What is set is read back; an UNSET name reads the level of its longest ancestor that has one. */
    method SetAndGet(name: string, level: int, ghost rest: multiset<Block>)
      returns (ret: Ret, effective: int, ghost leaked: multiset<Block>)
      requires Valid() && Balanced(rest)
      modifies this`defaultLevel, severities, alloc
      ensures Valid() && Balanced(rest + leaked)
      ensures ret == Ok && level != 0 ==> effective == level
      ensures ret == Ok && level == 0 && effective != -1 ==>
                || (exists p :: p != name && LongestGives(LevelMap(), name, p, effective))
                || (NoneGives(LevelMap(), name) && effective == defaultLevel)
    {
      hide Valid, Balanced, LevelMap, SettingFails, Stored, LevelOf, Effective, LongestGives, NoneGives;
      hide HashMap.StoreCalls, HashMap.PlanFor, HashMap.Grown, SetTo;
      ret, leaked := SetLevel(name, level, rest);
      effective := GetEffectiveLevel(name, rest + leaked);
      if ret == Ok && level == 0 {
        UnsetInherits(LevelMap(), defaultLevel, name);
      }
    }

    /** One call of a run. */
    method Apply(setting: Setting, ghost rest: multiset<Block>) returns (ret: Ret, ghost leaked: multiset<Block>)
      requires Valid() && Balanced(rest)
      modifies this`defaultLevel, severities, alloc
      ensures Valid() && Balanced(rest + leaked)
      ensures SetTo(old(LevelMap()), old(defaultLevel), setting, ret, LevelMap(), defaultLevel)
      ensures ret == Error <==> setting.Setting? && IsSeverity(setting.level) && old(SettingFails(setting.name))
      ensures |leaked| == if ret == Error && !alloc.fails(old(alloc.calls)) then 1 else 0
    {
      hide Valid, Balanced, AfterSweep, Mark, LevelMap;
      hide SettingFails, Stored, HashMap.StoreCalls, HashMap.PlanFor, HashMap.Grown;
      match setting {
        case Setting(name, level) =>
          ret, leaked := SetLevel(name, level, rest);
        case Default(level) =>
          SetDefaultLevel(level);
          ret, leaked := Ok, multiset{};
          assert rest + leaked == rest;
      }
    }

    /** `rcutils_logging_shutdown`: take the first entry until none is left, then give the map back.
        Every stored name is freed once; only `rest` stays live. */
    method Shutdown(ghost rest: multiset<Block>)
      requires Valid() && Balanced(rest)
      modifies severities, alloc`live
      ensures alloc.Valid() && alloc.live == rest && severities.m == map[]
    {
      hide HashMap.Valid, HashMap.Owned, HashMap.Listing, NameBlocks, Lists, Balanced;
      ListedInMap(this);
      var ret, key, level := severities.GetNext(None);
      while ret == Ok
        invariant Valid() && Balanced(rest) && IsAt(severities.Listing(), 0, ret, key, level)
        decreases |severities.Listing()|
      {
        Drop(key.value, 0, rest);
        ret, key, level := severities.GetNext(None);
      }
      NothingStored(this, rest);
      severities.Fini(alloc, rest);
    }
  }

  lemma StoredIs(logger: Logger, name: string)
    ensures logger.Stored(name) <==> name in logger.severities.m
  {
  }

  lemma BalancedIs(logger: Logger, rest: multiset<Block>)
    requires logger.Balanced(rest)
    ensures logger.alloc.live == rest + NameBlocks(logger.severities.Listing()) + logger.severities.Owned()
  {
  }

  lemma BalancedWith(logger: Logger, rest: multiset<Block>)
    requires logger.alloc.live == rest + NameBlocks(logger.severities.Listing()) + logger.severities.Owned()
    ensures logger.Balanced(rest)
  {
  }

  lemma StoreFailsNever(severities: Severities, name: string, fails: nat -> bool, c: nat)
    ensures name in severities.m ==> !severities.StoreFails(name, fails, c)
  {
  }

  /** A swept name leaves room, so that only the entry itself can be refused. */
  lemma AfterSweepFails(severities: Severities, name: string, fails: nat -> bool, c: nat)
    requires name !in severities.m
    ensures severities.HasRoom(name) ==>
              (severities.StoreFails(name, fails, c) <==> fails(c) || fails(c + 1) || fails(c + 2))
    ensures severities.StoreFails(name, fails, c) <==>
            fails(c) || fails(c + 1) || fails(c + 2) || InsertFails(fails, c + 3, severities.BucketOf(name))
  {
  }

  lemma SomeLevels(logger: Logger, name: string)
    requires logger.Valid()
    ensures logger.severities.size == 0 <==> logger.LevelMap() == map[]
    ensures logger.severities.size == 0 ==>
              Effective(logger.LevelMap(), logger.defaultLevel, name) == logger.defaultLevel
  {
    if logger.severities.size == 0 {
      EmptyMap(logger);
      NoneDecides(logger.LevelMap(), logger.defaultLevel, name, |name|);
    }
    if logger.severities.size != 0 {
      var k :| k in logger.severities.m;
      assert k in logger.LevelMap();
    }
  }

  lemma NameIsSwept(logger: Logger, name: string, before: map<string, NameEntry>)
    requires logger.severities.m == Swept(name, before)
    requires forall k :: k in before ==> before[k].key.text == k
    ensures name !in logger.severities.m
  {
  }

  lemma NothingStored(logger: Logger, rest: multiset<Block>)
    requires logger.Valid() && logger.Balanced(rest) && logger.severities.Listing() == []
    ensures logger.severities.Valid()
    ensures logger.alloc.live == rest + logger.severities.Owned() && logger.severities.m == map[]
  {
    assert forall k :: k in logger.severities.m ==> logger.severities.m[k] in logger.severities.Listing();
  }

  // ----- one call, and whole runs, on the map from names to levels

  /** A call of `set_logger_level` or of `set_default_logger_level`. */
  datatype Setting = Setting(name: string, level: int) | Default(level: int)

  ghost function SweptLevels(name: string, levels: map<string, int>): map<string, int> {
    map k | k in levels && !(name <= k && (k == name || levels[k] % 2 == 0)) :: levels[k]
  }

  ghost function AfterSweep(name: string, levels: map<string, int>): map<string, int> {
    if name in levels then SweptLevels(name, levels) else levels
  }

  lemma LevelsSwept(name: string, m: map<string, NameEntry>)
    requires forall k :: k in m ==> m[k].key.text == k
    ensures Levels(Swept(name, m)) == SweptLevels(name, Levels(m))
  {
  }

  lemma LevelIsRead(swept: map<string, int>, default_: int, name: string, level: int)
    requires level in {0, 10, 20, 30, 40, 50}
    ensures LevelOf(swept[name := Mark(level)], name) == level
    ensures level != 0 ==> Effective(swept[name := Mark(level)], default_, name) == level
  {
    MarkMeans(swept, name, level);
    hide Mark, LevelOf;
    if level != 0 {
      DecidedByName(swept[name := Mark(level)], default_, name);
    }
  }

  lemma SweepForgets(name: string, levels: map<string, int>)
    ensures name !in AfterSweep(name, levels)
    ensures AfterSweep(name, levels) != levels <==> name in levels
  {
  }

  ghost predicate SetTo(
    before: map<string, int>, default_: int, setting: Setting, ret: Ret, after: map<string, int>, default': int)
  {
    match setting
    case Setting(name, level) =>
      var swept := AfterSweep(name, before);
      && (IsSeverity(level) ==> (ret == Ok && after == swept[name := Mark(level)]) || (ret == Error && after == swept))
      && (!IsSeverity(level) ==> ret == InvalidArgument && after == before)
      && default' == if IsSeverity(level) && name == "" then level else default_
    case Default(level) =>
      ret == Ok && after == before && default' == if level == UNSET then INFO else level
  }

  lemma MoveLast(r: multiset<Block>, n: multiset<Block>, x: multiset<Block>, o: multiset<Block>)
    ensures r + n + o + x == r + n + x + o == r + (n + x) + o == (r + x) + n + o
  {
  }

  lemma RemovedAt(h: Hasher<Name, string>, before: seq<NameEntry>, after: seq<NameEntry>, p: nat)
    requires p < |before| && ByText(h) && Removed(h, before, after, before[p].key.text)
    ensures after == Without(before, p)
  {
    assert h.Id(before[p]) == before[p].key.text;
  }

  /** After `set` the copies are those of before and, for a new name, the new one. */
  lemma NameAdded(logger: Logger, listing: seq<NameEntry>, before: map<string, NameEntry>, name: string)
    requires logger.Valid() && Lists(logger.severities.h, listing, before)
    requires name in logger.severities.m && logger.severities.m == before[name := logger.severities.m[name]]
    requires name in before ==> logger.severities.m[name].key == before[name].key
    requires logger.severities.m[name].key.text == name
    ensures NameBlocks(logger.severities.Listing()) ==
            NameBlocks(listing) + (if name in before then multiset{} else multiset{logger.severities.m[name].key.block})
  {
    var h, m := logger.severities.h, logger.severities.m;
    var f := (e: NameEntry) => multiset{e.key.block};
    assert Lists(h, logger.severities.Listing(), m);
    assert h.Id(m[name]) == name;
    if name in before {
      var j :| 0 <= j < |listing| && listing[j] == before[name];
      var e, pre, post := listing[j], listing[..j], listing[j + 1..];
      SplitAt(listing, j);
      hide Lists, HashMap.Valid;
      ListsReplace(h, pre, post, before, e, m[name]);
      SumOfListing(h, f, logger.severities.Listing(), pre + [m[name]] + post, m);
      SumInsert(f, pre, post, e);
      SumInsert(f, pre, post, m[name]);
    } else {
      hide Lists, HashMap.Valid;
      assert listing + [] == listing;
      ListsInsert(h, listing, [], before, m[name]);
      SumOfListing(h, f, logger.severities.Listing(), listing + [m[name]] + [], m);
      SumInsert(f, listing, [], m[name]);
    }
  }

  lemma ListedInMap(logger: Logger)
    requires logger.Valid()
    ensures logger.severities.Valid() && Lists(logger.severities.h, logger.severities.Listing(), logger.severities.m)
    ensures forall k :: k in logger.severities.m ==> logger.severities.m[k].key.text == k
  {
  }

  /** The sweep before entry `n` of the original listing: those before it are kept or gone, those
      from it on are untouched, and it is what the iteration returned last. */
  ghost predicate SweepAt(
    name: string, all: seq<NameEntry>, n: nat, listing: seq<NameEntry>, ret: Ret, key: Option<Name>, level: Option<int>)
  {
    && n <= |all|
    && listing == Kept(name, all[..n]) + all[n..]
    && IsAt(listing, |Kept(name, all[..n])|, ret, key, level)
  }

  lemma SweepStart(name: string, all: seq<NameEntry>, ret: Ret, key: Option<Name>, level: Option<int>)
    requires IsAt(all, 0, ret, key, level)
    ensures SweepAt(name, all, 0, all, ret, key, level)
  {
    assert Kept(name, all[..0]) == [];
  }

  lemma SweepCurrent(
    name: string, all: seq<NameEntry>, n: nat, listing: seq<NameEntry>, ret: Ret, key: Option<Name>, level: Option<int>)
    requires SweepAt(name, all, n, listing, ret, key, level) && ret == Ok
    ensures n < |all| && key == Some(all[n].key) && level == Some(all[n].value)
    ensures var p := |Kept(name, all[..n])|; p < |listing| && listing[p] == all[n]
    ensures listing == Kept(name, all[..n]) + all[n..]
  {
  }

  lemma SweepAdvance(
    name: string, all: seq<NameEntry>, n: nat, before: seq<NameEntry>, after: seq<NameEntry>,
    ret: Ret, key: Option<Name>, level: Option<int>)
    requires n < |all| && before == Kept(name, all[..n]) + all[n..]
    requires var p := |Kept(name, all[..n])|;
             && IsAt(before, p + 1, ret, key, level)
             && after == if Doomed(name, all[n]) then Without(before, p) else before
    ensures SweepAt(name, all, n + 1, after, ret, key, level)
  {
    hide Doomed;
    assert all[..n + 1] == all[..n] + [all[n]];
    KeptNext(name, all[..n], all[n]);
  }

  lemma SweepEnd(
    name: string, all: seq<NameEntry>, n: nat, listing: seq<NameEntry>, ret: Ret, key: Option<Name>, level: Option<int>)
    requires SweepAt(name, all, n, listing, ret, key, level) && ret != Ok
    ensures n == |all| && listing == Kept(name, all)
  {
    assert all[..|all|] == all;
  }

  /** What the sweep removes: the name itself, and cached (unmarked) names that begin with it. */
  ghost predicate Doomed(name: string, e: NameEntry) {
    name <= e.key.text && (e.key.text == name || e.value % 2 == 0)
  }

  ghost function Kept(name: string, items: seq<NameEntry>): seq<NameEntry> {
    if items == [] then []
    else
      var last := items[|items| - 1];
      Kept(name, items[..|items| - 1]) + (if Doomed(name, last) then [] else [last])
  }

  ghost function Swept(name: string, m: map<string, NameEntry>): map<string, NameEntry> {
    map k | k in m && !Doomed(name, m[k]) :: m[k]
  }

  lemma KeptNext(name: string, items: seq<NameEntry>, e: NameEntry)
    ensures Kept(name, items + [e]) == Kept(name, items) + (if Doomed(name, e) then [] else [e])
  {
    assert (items + [e])[..|items|] == items;
  }

  lemma {:induction false} KeptLists(
    h: Hasher<Name, string>, name: string, items: seq<NameEntry>, m: map<string, NameEntry>)
    requires Lists(h, items, m)
    ensures Lists(h, Kept(name, items), Swept(name, m))
  {
    if items != [] {
      var n := |items| - 1;
      var e := items[n];
      assert h.Id(e) in m && m[h.Id(e)] == e;
      var before, none, rest := items[..n], items[n + 1..], m - {h.Id(e)};
      SweptLast(name, m, h.Id(e));
      hide Lists, Swept, Doomed;
      SplitAt(items, n);
      ListsRemove(h, before, none, m, e);
      assert before + none == before;
      KeptLists(h, name, before, rest);
      var kept := Kept(name, before);
      assert kept + none == kept && kept + [e] + none == kept + [e];
      if !Doomed(name, e) {
        assert h.Id(e) !in Swept(name, rest) by { NotSwept(name, rest, h.Id(e)); }
        ListsInsert(h, kept, none, Swept(name, rest), e);
      }
    }
  }

  lemma NotSwept(name: string, m: map<string, NameEntry>, k: string)
    requires k !in m
    ensures k !in Swept(name, m)
  {
  }

  lemma SweptLast(name: string, m: map<string, NameEntry>, k: string)
    requires k in m
    ensures Swept(name, m) == if Doomed(name, m[k]) then Swept(name, m - {k}) else Swept(name, m - {k})[k := m[k]]
  {
  }

  /** The name itself, and a name that begins with it and whose stored level has its lowest bit clear. */
  predicate SweptAway(name: string, k: string, stored: int) {
    k == name || (|name| <= |k| && k[..|name|] == name && stored % 2 == 0)
  }

  lemma SweptMeans(name: string, m: map<string, NameEntry>)
    requires forall k :: k in m ==> m[k].key.text == k
    ensures forall k :: k in Swept(name, m) <==> k in m && !SweptAway(name, k, m[k].value)
    ensures forall k :: k in Swept(name, m) ==> Swept(name, m)[k] == m[k]
  {
  }

  lemma SweptMap(logger: Logger, name: string, before: seq<NameEntry>, m: map<string, NameEntry>)
    requires logger.Valid() && Lists(logger.severities.h, before, m)
    requires logger.severities.Listing() == Kept(name, before)
    ensures logger.severities.m == Swept(name, m)
  {
    KeptLists(logger.severities.h, name, before, m);
    ListsUnique(logger.severities.h, Kept(name, before), logger.severities.m, Swept(name, m));
  }

  lemma NameDropped(items: seq<NameEntry>, p: nat)
    requires p < |items|
    ensures NameBlocks(items) == NameBlocks(Without(items, p)) + multiset{items[p].key.block}
  {
    SplitAt(items, p);
    SumInsert((e: NameEntry) => multiset{e.key.block}, items[..p], items[p + 1..], items[p]);
  }

  lemma EmptyMap(logger: Logger)
    requires logger.Valid() && logger.severities.size == 0
    ensures logger.LevelMap() == map[]
  {
  }

  /** Every stored level carries the mark of a user setting: the code that would cache computed
      levels without it is commented out in the source. */
  ghost predicate AllMarked(levels: map<string, int>) {
    forall k :: k in levels ==> levels[k] % 2 == 1
  }

  /** Then the sweep removes the exact name only, and a successful call is a plain map update. */
  lemma SetToMarked(
    before: map<string, int>, default_: int, setting: Setting, ret: Ret, after: map<string, int>, default': int)
    requires AllMarked(before) && SetTo(before, default_, setting, ret, after, default')
    ensures AllMarked(after)
    ensures setting.Setting? && ret == Ok ==> after == before[setting.name := Mark(setting.level)]
    ensures setting.Setting? && ret == Error ==> after == before - {setting.name}
    ensures setting.Default? || ret == InvalidArgument ==> after == before
    ensures ret == InvalidArgument ==> default' == default_
  {
    if setting.Setting? {
      var name := setting.name;
      assert AfterSweep(name, before) == before - {name};
      assert (before - {name})[name := Mark(setting.level)] == before[name := Mark(setting.level)];
    }
  }

  /** A run of such calls: states and defaults before and after
      each call. */
  ghost predicate IsRun(settings: seq<Setting>, rets: seq<Ret>, states: seq<map<string, int>>, defaults: seq<int>) {
    && |rets| == |settings| && |states| == |defaults| == |settings| + 1
    && forall i :: 0 <= i < |settings| ==>
                     SetTo(states[i], defaults[i], settings[i], rets[i], states[i + 1], defaults[i + 1])
  }

  lemma {:induction false} RunMarked(
    settings: seq<Setting>, rets: seq<Ret>, states: seq<map<string, int>>, defaults: seq<int>, n: nat)
    requires IsRun(settings, rets, states, defaults) && AllMarked(states[0]) && n <= |settings|
    ensures AllMarked(states[n])
  {
    if n > 0 {
      RunMarked(settings, rets, states, defaults, n - 1);
      SetToMarked(states[n - 1], defaults[n - 1], settings[n - 1], rets[n - 1], states[n], defaults[n]);
    }
  }

  /** A call that leaves the default level alone. */
  predicate KeepsDefault(setting: Setting) {
    setting.Setting? && setting.name != ""
  }

  /** A call that names neither `other` nor one of its ancestors. */
  predicate Elsewhere(setting: Setting, other: string) {
    setting.Setting? ==> setting.name != other && !(setting.name + "." <= other)
  }

  lemma {:induction false} RunKeepsDefault(
    settings: seq<Setting>, rets: seq<Ret>, states: seq<map<string, int>>, defaults: seq<int>, n: nat)
    requires IsRun(settings, rets, states, defaults) && n <= |settings|
    requires forall i :: 0 <= i < n ==> KeepsDefault(settings[i])
    ensures defaults[n] == defaults[0]
  {
    if n > 0 {
      RunKeepsDefault(settings, rets, states, defaults, n - 1);
      assert SetTo(states[n - 1], defaults[n - 1], settings[n - 1], rets[n - 1], states[n], defaults[n]);
    }
  }

  lemma {:induction false} RunKeepsAncestors(
    settings: seq<Setting>, rets: seq<Ret>, states: seq<map<string, int>>, defaults: seq<int>, other: string, n: nat)
    requires IsRun(settings, rets, states, defaults) && AllMarked(states[0]) && n <= |settings|
    requires forall i :: 0 <= i < n ==> Elsewhere(settings[i], other)
    ensures forall p :: IsAncestor(p, other) ==> LevelOf(states[n], p) == LevelOf(states[0], p)
  {
    if n > 0 {
      RunKeepsAncestors(settings, rets, states, defaults, other, n - 1);
      RunMarked(settings, rets, states, defaults, n - 1);
      SetToMarked(states[n - 1], defaults[n - 1], settings[n - 1], rets[n - 1], states[n], defaults[n]);
      if settings[n - 1].Setting? {
        NotAncestor(settings[n - 1].name, other);
      }
    }
  }

  /** Locality over whole runs: calls that name neither `other` nor one of its ancestors, whether they
      succeed or fail, leave its effective level alone; those that set the default level do so too
      when `other` or one of its ancestors has a level of its own. */
  lemma RunIsLocal(
    settings: seq<Setting>, rets: seq<Ret>, states: seq<map<string, int>>, defaults: seq<int>, other: string, n: nat)
    requires IsRun(settings, rets, states, defaults) && AllMarked(states[0]) && n <= |settings|
    requires forall i :: 0 <= i < n ==> Elsewhere(settings[i], other)
    requires Decided(states[0], other) || forall i :: 0 <= i < n ==> KeepsDefault(settings[i])
    ensures Effective(states[n], defaults[n], other) == Effective(states[0], defaults[0], other)
  {
    RunKeepsAncestors(settings, rets, states, defaults, other, n);
    EffectiveFrame(states[n], states[0], defaults[n], other, |other|);
    if Decided(states[0], other) {
      DefaultReaches(states[0], defaults[n], defaults[0], other);
    } else {
      RunKeepsDefault(settings, rets, states, defaults, n);
    }
  }

  /** A level once set is the effective level of its name until the name is set again, whatever else is
      set, with success or not. */
  lemma {:induction false} SettingLasts(
    settings: seq<Setting>, rets: seq<Ret>, states: seq<map<string, int>>, defaults: seq<int>, i: nat, n: nat)
    requires IsRun(settings, rets, states, defaults) && AllMarked(states[0]) && i < n <= |settings|
    requires settings[i].Setting? && rets[i] == Ok
    requires forall j :: i < j < n ==> settings[j].Setting? ==> settings[j].name != settings[i].name
    ensures settings[i].level in {0, 10, 20, 30, 40, 50}
    ensures LevelOf(states[n], settings[i].name) == settings[i].level
    ensures settings[i].level != 0 ==> Effective(states[n], defaults[n], settings[i].name) == settings[i].level
    decreases n
  {
    RunMarked(settings, rets, states, defaults, n - 1);
    SetToMarked(states[n - 1], defaults[n - 1], settings[n - 1], rets[n - 1], states[n], defaults[n]);
    if n == i + 1 {
      assert SetTo(states[i], defaults[i], settings[i], rets[i], states[i + 1], defaults[i + 1]);
      LevelIsRead(states[i], defaults[n], settings[i].name, settings[i].level);
    } else {
      SettingLasts(settings, rets, states, defaults, i, n - 1);
      if settings[i].level != 0 {
        DecidedByName(states[n], defaults[n], settings[i].name);
      }
    }
  }

  /** Any calls on a live logger form a run; each failed call leaks one block at most. */
  method RunSettings(logger: Logger, settings: seq<Setting>, ghost rest: multiset<Block>)
    returns (rets: seq<Ret>, ghost states: seq<map<string, int>>, ghost defaults: seq<int>,
             ghost leaked: multiset<Block>)
    requires logger.Valid() && logger.Balanced(rest)
    modifies logger, logger.severities, logger.alloc
    ensures logger.Valid() && logger.Balanced(rest + leaked)
    ensures IsRun(settings, rets, states, defaults) && |leaked| <= multiset(rets)[Error]
    ensures states[0] == old(logger.LevelMap()) && states[|settings|] == logger.LevelMap()
    ensures defaults[0] == old(logger.defaultLevel) && defaults[|settings|] == logger.defaultLevel
  {
    hide *;
    rets, states, defaults, leaked := [], [logger.LevelMap()], [logger.defaultLevel], multiset{};
    assert rest + leaked == rest;
    for i := 0 to |settings|
      invariant logger.Valid() && logger.Balanced(rest + leaked) && |leaked| <= multiset(rets)[Error]
      invariant |rets| == i && |states| == i + 1 && |defaults| == i + 1
      invariant states[0] == old(logger.LevelMap()) && states[i] == logger.LevelMap()
      invariant defaults[0] == old(logger.defaultLevel) && defaults[i] == logger.defaultLevel
      invariant forall j :: 0 <= j < i ==>
                              SetTo(states[j], defaults[j], settings[j], rets[j], states[j + 1], defaults[j + 1])
    {
      var ret;
      ghost var lost;
      ret, lost := logger.Apply(settings[i], rest + leaked);
      assert rest + leaked + lost == rest + (leaked + lost);
      rets, states, defaults := rets + [ret], states + [logger.LevelMap()], defaults + [logger.defaultLevel];
      leaked := leaked + lost;
    }
    RunIsRun(settings, rets, states, defaults);
  }

  lemma RunIsRun(settings: seq<Setting>, rets: seq<Ret>, states: seq<map<string, int>>, defaults: seq<int>)
    requires |rets| == |settings| && |states| == |defaults| == |settings| + 1
    requires forall j :: 0 <= j < |settings| ==>
                           SetTo(states[j], defaults[j], settings[j], rets[j], states[j + 1], defaults[j + 1])
    ensures IsRun(settings, rets, states, defaults)
  {
  }

  /** Start-up with a map of capacity 2, any calls, shutdown: a run from the empty map, after which
      the only blocks beyond those of before are leaked copies of names, at most one per failed call. */
  method WholeLife(settings: seq<Setting>, hash: string -> nat, defaultLevel: int, alloc: Allocator)
    returns (ret: Ret, rets: seq<Ret>, ghost states: seq<map<string, int>>, ghost defaults: seq<int>,
             ghost leaked: multiset<Block>)
    requires alloc.Valid()
    modifies alloc
    ensures alloc.Valid() && alloc.live == old(alloc.live) + leaked && |leaked| <= multiset(rets)[Error]
    ensures ret != Ok ==> rets == [] && leaked == multiset{}
    ensures ret == Error <==> alloc.fails(old(alloc.calls)) || alloc.fails(old(alloc.calls) + 1)
    ensures ret == Ok || ret == Error
    ensures ret == Ok ==> IsRun(settings, rets, states, defaults) && states[0] == map[] && defaults[0] == defaultLevel
  {
    rets, states, defaults, leaked := [], [], [], multiset{};
    var severities: HashMap?<Name, int, string>;
    ret, severities := HashMap<Name, int, string>.Init(2, Hasher((n: Name) => n.text, hash), alloc);
    if severities == null {
      ret := Error;
      return;
    }
    var logger := new Logger(alloc, severities, defaultLevel);
    StartsBalanced(logger, old(alloc.live));
    hide *;
    rets, states, defaults, leaked := RunSettings(logger, settings, old(alloc.live));
    logger.Shutdown(old(alloc.live) + leaked);
  }

  /** The oracle of the example below: request 8, for a larger array, fails unnoticed; request 10, for
      the entry of the name set again, fails too. */
  predicate EightAndTen(n: nat) {
    n == 8 || n == 10
  }

  method NewLogger(hash: string -> nat) returns (logger: Logger)
    ensures logger.Valid() && logger.Balanced(multiset{}) && logger.alloc.fails == EightAndTen
    ensures logger.LevelMap() == map[] && logger.alloc.calls == 2
    ensures |logger.severities.buckets| == 2 && logger.severities.BucketOf("a").Unused?
    ensures fresh(logger) && fresh(logger.severities) && fresh(logger.alloc)
  {
    hide HashMap.Valid, HashMap.Owned, LeastPowerFrom, Allocator.NoFailure;
    var alloc := new Allocator(EightAndTen);
    var ret, severities := HashMap<Name, int, string>.Init(2, Hasher((n: Name) => n.text, hash), alloc);
    TwoIsLeast(|severities.buckets|);
    logger := new Logger(alloc, severities, WARN);
    hide Logger.Valid, Logger.Balanced;
    StartsBalanced(logger, multiset{});
  }

  method FirstSetting(logger: Logger) returns (ret: Ret)
    requires logger.Valid() && logger.Balanced(multiset{}) && logger.alloc.fails == EightAndTen
    requires logger.LevelMap() == map[] && logger.alloc.calls == 2
    requires |logger.severities.buckets| == 2 && logger.severities.BucketOf("a").Unused?
    modifies logger, logger.severities, logger.alloc
    ensures logger.Valid() && logger.Balanced(multiset{})
    ensures ret == Ok && logger.LevelMap() == map["a" := Mark(DEBUG)] && logger.alloc.calls == 9
  {
    hide *;
    hide Logger.SettingFails;
    FirstSucceeds(logger);
    ghost var lost;
    ghost var plan := logger.severities.PlanFor("a", logger.alloc.calls + 1);
    ret, lost := logger.SetLevel("a", DEBUG, multiset{});
    assert multiset{} + lost == multiset{};
    FirstIsSet(ret, logger.LevelMap(), logger.defaultLevel, old(logger.defaultLevel));
    FirstGrowth(logger, plan);
  }

  lemma FirstSucceeds(logger: Logger)
    requires logger.alloc.fails == EightAndTen && logger.LevelMap() == map[] && logger.alloc.calls == 2
    requires logger.severities.BucketOf("a").Unused?
    requires |logger.severities.buckets| == 2
    ensures !logger.SettingFails("a") && !logger.Stored("a") && IsSeverity(DEBUG)
    ensures var plan := logger.severities.PlanFor("a", 3); plan.capacity == 2 && plan.stored == 8
  {
    StoredIs(logger, "a");
    EmptyBucket(logger.severities, "a", logger.alloc.fails, 3);
  }

  lemma FirstIsSet(ret: Ret, after: map<string, int>, default_: int, was: int)
    requires SetTo(map[], was, Setting("a", DEBUG), ret, after, default_) && ret != Error
    ensures ret == Ok && after == map["a" := Mark(DEBUG)]
  {
  }

  lemma FirstGrowth(logger: Logger, plan: GrowthPlan)
    requires logger.Valid() && |logger.LevelMap()| == 1 && logger.alloc.fails == EightAndTen
    requires logger.severities.Grown(plan, logger.alloc) && plan.capacity == 2 && plan.stored == 8
    ensures logger.alloc.calls == 9
  {
    OneLevel(logger);
  }

  /** A name loses its level, and a copy of the name leaks. */
  method ForgottenAndLeaked(hash: string -> nat)
    returns (logger: Logger, first: Ret, second: Ret, ghost between: map<string, int>, ghost leaked: multiset<Block>)
    ensures logger.Valid() && logger.Balanced(leaked) && logger.alloc.fails == EightAndTen
    ensures first == Ok && between == map["a" := Mark(DEBUG)]
    ensures second == Error && logger.LevelMap() == map[] && |leaked| == 1
  {
    hide Logger.Valid, Logger.Balanced, HashMap.StoreCalls, HashMap.PlanFor;
    hide HashMap.Grown, Allocator.NoFailure, AfterSweep, Logger.LevelMap;
    logger := NewLogger(hash);
    first := FirstSetting(logger);
    between := logger.LevelMap();
    second, leaked := logger.SetLevel("a", INFO, multiset{});
    assert multiset{} + leaked == leaked;
    SweepOfOne("a", Mark(DEBUG));
  }

  lemma TwoIsLeast(r: nat)
    requires LeastPowerFrom(2, r)
    ensures r == 2
  {
    assert IsPow2(2) by {
      assert Pow2(1) == 2;
    }
  }

  lemma OneLevel(logger: Logger)
    requires logger.Valid()
    ensures |logger.LevelMap()| == logger.severities.size
  {
    assert logger.LevelMap().Keys == logger.severities.m.Keys;
  }

  lemma SweepOfOne(name: string, level: int)
    ensures AfterSweep(name, map[name := level]) == map[]
  {
  }

  lemma StartsBalanced(logger: Logger, rest: multiset<Block>)
    requires logger.severities.Valid() && logger.alloc.Valid() && logger.severities.m == map[]
    requires forall n :: logger.severities.h.ident(n) == n.text
    requires logger.alloc.live == rest + logger.severities.Owned()
    ensures logger.Valid() && logger.Balanced(rest) && logger.LevelMap() == map[]
  {
    ListsSize(logger.severities.h, logger.severities.Listing(), logger.severities.m);
    assert logger.severities.Listing() == [];
  }
}
