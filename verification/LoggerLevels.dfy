/** The severity hierarchy of src/logging.c as a specification: the level of a name, its dotted
    ancestors, and the effective level.
 */
module LoggerLevels {

  const UNSET := 0
  const DEBUG := 10
  const INFO := 20
  const WARN := 30
  const ERROR := 40
  const FATAL := 50
  const SEPARATOR := '.'

  /** The severities with a name in `g_rcutils_log_severity_names`. */
  predicate IsSeverity(level: int) {
    level == UNSET || level == DEBUG || level == INFO || level == WARN || level == ERROR || level == FATAL
  }

  /** `level | 1` marks a level as set by the user; `level & ~1` takes the mark off again. */
  function Mark(level: int): int {
    if level % 2 == 0 then level + 1 else level
  }

  function Unmark(level: int): int {
    level - level % 2
  }

  function LevelOf(levels: map<string, int>, name: string): int {
    if name in levels then Unmark(levels[name]) else UNSET
  }

  /** `p` is `name` itself or what is left of it before one of its dots. */
  predicate IsAncestor(p: string, name: string) {
    p <= name && (|p| < |name| ==> name[|p|] == SEPARATOR)
  }

  ghost predicate Decides(levels: map<string, int>, name: string, p: string) {
    IsAncestor(p, name) && LevelOf(levels, p) != UNSET
  }

  /** `level` is that of the longest ancestor with a level of its own, else the default. */
  ghost predicate IsEffective(levels: map<string, int>, default_: int, name: string, level: int) {
    || (exists p :: Decides(levels, name, p) && level == LevelOf(levels, p)
                    && forall q :: Decides(levels, name, q) ==> |q| <= |p|)
    || (level == default_ && forall q :: !Decides(levels, name, q))
  }

  /** The same, as a search over the prefixes of `name` from length `n` down. */
  function EffectiveFrom(levels: map<string, int>, default_: int, name: string, n: nat): int
    requires n <= |name|
    decreases n
  {
    if IsAncestor(name[..n], name) && LevelOf(levels, name[..n]) != UNSET then LevelOf(levels, name[..n])
    else if n == 0 then default_
    else EffectiveFrom(levels, default_, name, n - 1)
  }

  function Effective(levels: map<string, int>, default_: int, name: string): int {
    EffectiveFrom(levels, default_, name, |name|)
  }

  lemma {:induction false} EffectiveFromIs(levels: map<string, int>, default_: int, name: string, n: nat)
    requires n <= |name| && forall q :: Decides(levels, name, q) ==> |q| <= n
    ensures IsEffective(levels, default_, name, EffectiveFrom(levels, default_, name, n))
    decreases n
  {
    var p := name[..n];
    if IsAncestor(p, name) && LevelOf(levels, p) != UNSET {
      assert Decides(levels, name, p);
    } else {
      forall q | Decides(levels, name, q) ensures |q| < n {
        assert q == name[..|q|];
      }
      if n > 0 {
        EffectiveFromIs(levels, default_, name, n - 1);
      }
    }
  }

  /** The search computes the effective level, and there is only one. */
  lemma EffectiveIs(levels: map<string, int>, default_: int, name: string, level: int)
    ensures IsEffective(levels, default_, name, level) <==> level == Effective(levels, default_, name)
  {
    EffectiveFromIs(levels, default_, name, |name|);
    var found := Effective(levels, default_, name);
    if IsEffective(levels, default_, name, level) {
      forall p, q | Decides(levels, name, p) && Decides(levels, name, q) && |p| == |q| ensures p == q {
        assert p == name[..|p|] && q == name[..|q|];
      }
    }
  }

  /** Skipping prefixes that do not decide does not matter. */
  lemma {:induction false} SkipTo(levels: map<string, int>, default_: int, name: string, from: nat, to: nat)
    requires to <= from <= |name|
    requires forall n :: to < n <= from ==> !Decides(levels, name, name[..n])
    ensures EffectiveFrom(levels, default_, name, from) == EffectiveFrom(levels, default_, name, to)
    decreases from
  {
    if to < from {
      assert !Decides(levels, name, name[..from]);
      SkipTo(levels, default_, name, from - 1, to);
    }
  }

  /** When no prefix decides, the default does. */
  lemma NoneDecides(levels: map<string, int>, default_: int, name: string, from: nat)
    requires from <= |name|
    requires forall n :: 0 <= n <= from ==> !Decides(levels, name, name[..n])
    ensures EffectiveFrom(levels, default_, name, from) == default_
  {
    SkipTo(levels, default_, name, from, 0);
    assert !Decides(levels, name, name[..0]);
  }

  lemma DecidedByName(levels: map<string, int>, default_: int, name: string)
    requires LevelOf(levels, name) != UNSET
    ensures Effective(levels, default_, name) == LevelOf(levels, name)
  {
    assert name[..|name|] == name;
  }

  /** The effective level depends on the ancestors of the name only. */
  lemma {:induction false} EffectiveFrame(
    a: map<string, int>, b: map<string, int>, default_: int, name: string, n: nat)
    requires n <= |name| && forall p :: IsAncestor(p, name) ==> LevelOf(a, p) == LevelOf(b, p)
    ensures EffectiveFrom(a, default_, name, n) == EffectiveFrom(b, default_, name, n)
    decreases n
  {
    if n > 0 {
      EffectiveFrame(a, b, default_, name, n - 1);
    }
  }

  ghost predicate Decided(levels: map<string, int>, name: string) {
    exists p :: Decides(levels, name, p)
  }

  /** The default level is the effective level of exactly those names that neither have a level nor
      an ancestor with one; for the others it does not matter. */
  lemma DefaultReaches(levels: map<string, int>, default_: int, default': int, name: string)
    ensures !Decided(levels, name) ==> Effective(levels, default_, name) == default_
    ensures Decided(levels, name) ==> Effective(levels, default_, name) == Effective(levels, default', name)
  {
    EffectiveIs(levels, default_, name, Effective(levels, default_, name));
    EffectiveIs(levels, default', name, Effective(levels, default_, name));
  }

  lemma NotAncestor(name: string, other: string)
    requires other != name && !(name + "." <= other)
    ensures !IsAncestor(name, other)
  {
    if name <= other && |name| < |other| {
      assert other[..|name| + 1] == name + [other[|name|]];
    }
  }

  /** Setting the level of `name` can change the effective level of `name` and of the names
      `name.suffix` only. */
  lemma SetIsLocal(levels: map<string, int>, default_: int, name: string, value: int, other: string)
    requires other != name && !(name + "." <= other)
    ensures Effective(levels[name := value], default_, other) == Effective(levels, default_, other)
  {
    NotAncestor(name, other);
    EffectiveFrame(levels[name := value], levels, default_, other, |other|);
  }

  /** A level that is not UNSET takes effect at once for the name itself, and for a descendant
      unless a longer ancestor of it has a level of its own. */
  lemma SetTakesEffect(levels: map<string, int>, default_: int, name: string, value: int, other: string)
    requires IsAncestor(name, other) && Unmark(value) != UNSET
    requires forall q :: Decides(levels, other, q) ==> |q| <= |name|
    ensures Effective(levels[name := value], default_, other) == Unmark(value)
  {
    var after := levels[name := value];
    assert Decides(after, other, name);
    assert forall q :: Decides(after, other, q) ==> q == name || Decides(levels, other, q);
    EffectiveIs(after, default_, other, Unmark(value));
  }

  // ----- the same in plain words

  lemma SeverityMeans(level: int)
    ensures IsSeverity(level) <==> level in {0, 10, 20, 30, 40, 50}
  {
  }

  /** The stored number is the level with its lowest bit set, and reading takes that bit off. */
  lemma MarkMeans(levels: map<string, int>, name: string, level: int)
    requires level in {0, 10, 20, 30, 40, 50}
    ensures Mark(level) == level + 1 && LevelOf(levels[name := Mark(level)], name) == level
  {
  }

  lemma AncestorMeans(p: string, name: string)
    ensures IsAncestor(p, name) <==> p == name || exists suffix :: name == p + "." + suffix
  {
    if IsAncestor(p, name) && p != name {
      assert name == p + "." + name[|p| + 1..];
    }
    if suffix :| name == p + "." + suffix {
      assert name[..|p|] == p && name[|p|] == '.';
    }
  }

  /** `p` has a level of its own, which is what is stored without the lowest bit, unless that is 0. */
  ghost predicate HasLevel(levels: map<string, int>, p: string, level: int) {
    p in levels && level == 2 * (levels[p] / 2) && level != 0
  }

  /** `p` is `name` or what stands before one of its dots. */
  ghost predicate AtOrAbove(p: string, name: string) {
    p == name || exists suffix :: name == p + "." + suffix
  }

  /** The longest of `name` and its ancestors that has a level gives it. */
  ghost predicate LongestGives(levels: map<string, int>, name: string, p: string, level: int) {
    && AtOrAbove(p, name) && HasLevel(levels, p, level)
    && forall q, l :: AtOrAbove(q, name) && HasLevel(levels, q, l) ==> |q| <= |p|
  }

  ghost predicate NoneGives(levels: map<string, int>, name: string) {
    forall q, l :: AtOrAbove(q, name) ==> !HasLevel(levels, q, l)
  }

  lemma DecidesMeans(levels: map<string, int>, name: string, p: string)
    ensures Decides(levels, name, p) <==> AtOrAbove(p, name) && HasLevel(levels, p, LevelOf(levels, p))
    ensures forall l :: HasLevel(levels, p, l) ==> l == LevelOf(levels, p)
  {
    AncestorMeans(p, name);
  }

  /** What the effective level is. */
  lemma EffectiveMeans(levels: map<string, int>, default_: int, name: string, level: int)
    ensures level == Effective(levels, default_, name) <==>
            (exists p :: LongestGives(levels, name, p, level)) || (NoneGives(levels, name) && level == default_)
  {
    EffectiveIs(levels, default_, name, level);
    hide IsAncestor, LevelOf, Decides, AtOrAbove, HasLevel, Effective;
    forall p ensures Decides(levels, name, p) <==> AtOrAbove(p, name) && HasLevel(levels, p, LevelOf(levels, p))
      ensures forall l :: HasLevel(levels, p, l) ==> l == LevelOf(levels, p)
    {
      DecidesMeans(levels, name, p);
    }
    if IsEffective(levels, default_, name, level) {
      if p :|
        && Decides(levels, name, p) && level == LevelOf(levels, p)
        && forall q :: Decides(levels, name, q) ==> |q| <= |p|
      {
        assert LongestGives(levels, name, p, level);
      }
    }
    if p :| LongestGives(levels, name, p, level) {
      assert Decides(levels, name, p) && level == LevelOf(levels, p);
    }
  }

  /** A name set to UNSET takes the level of its longest proper ancestor that has one, else the default. */
  lemma UnsetInherits(levels: map<string, int>, default_: int, name: string)
    requires LevelOf(levels, name) == 0
    ensures var level := Effective(levels, default_, name);
            || (exists p :: p != name && LongestGives(levels, name, p, level))
            || (NoneGives(levels, name) && level == default_)
  {
    var level := Effective(levels, default_, name);
    EffectiveMeans(levels, default_, name, level);
    if p :| LongestGives(levels, name, p, level) {
      assert p != name;
    }
  }
}
