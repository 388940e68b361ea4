/**
 Dialect namespaces and operation names as strings: the order the catalog's
 `std::map<std::string, ...>` keeps its keys in, the sorted list of names it
 enumerates, the namespace rule of the `Dialect` constructor, and the split of
 an operation name at its first '.'.
 */
module Names {

  /** The separator between a dialect namespace and the rest of an operation name. */
  const Separator: char := '.'

  /** A namespace may not contain the separator (Dialect.h, the note on the
      `Dialect` constructor). */
  predicate IsValidNamespace(name: string): (valid: bool)
    ensures valid <==> forall i :: 0 <= i < |name| ==> name[i] != Separator
  {
    Separator !in name
  }

  /** `a < b` on `std::string`: lexicographic by character code, a proper
      prefix ordered before its extensions. */
  predicate Below(a: string, b: string)
  {
    if |a| == 0 then |b| > 0
    else if |b| == 0 then false
    else if a[0] != b[0] then a[0] < b[0]
    else Below(a[1..], b[1..])
  }

  lemma {:induction false} BelowIrreflexive(a: string)
    ensures !Below(a, a)
  {
    if |a| > 0 {
      BelowIrreflexive(a[1..]);
    }
  }

  lemma {:induction false} BelowTransitive(a: string, b: string, c: string)
    requires Below(a, b) && Below(b, c)
    ensures Below(a, c)
  {
    if |a| > 0 && a[0] == b[0] && b[0] == c[0] {
      BelowTransitive(a[1..], b[1..], c[1..]);
    }
  }

  lemma {:induction false} BelowTotal(a: string, b: string)
    ensures a == b || Below(a, b) || Below(b, a)
  {
    if |a| > 0 && |b| > 0 && a[0] == b[0] {
      BelowTotal(a[1..], b[1..]);
      if a[1..] == b[1..] {
        assert a == [a[0]] + a[1..] && b == [b[0]] + b[1..];
      }
    }
  }

  /** Every pair of names strictly ascending, which also means no name twice. */
  ghost predicate StrictlySorted(names: seq<string>)
  {
    forall i, j :: 0 <= i < j < |names| ==> Below(names[i], names[j])
  }

  lemma SortedHasNoDuplicates(names: seq<string>)
    requires StrictlySorted(names)
    ensures forall i, j :: 0 <= i < j < |names| ==> names[i] != names[j]
  {
    forall i, j | 0 <= i < j < |names|
      ensures names[i] != names[j]
    {
      BelowIrreflexive(names[i]);
    }
  }

  /** If `x` is below `m` and `m` below every other member of `s`, then `x`
      is below every member of `s`. */
  lemma BelowAllOf(x: string, m: string, s: set<string>)
    requires Below(x, m)
    requires forall k :: k in s && k != m ==> Below(m, k)
    ensures forall k :: k in s ==> Below(x, k)
  {
    forall k | k in s
      ensures Below(x, k)
    {
      if k != m {
        BelowTransitive(x, m, k);
      }
    }
  }

  /** The first key of a non-empty sorted map. */
  ghost function Least(keys: set<string>): (m: string)
    requires keys != {}
    ensures m in keys
    ensures forall k :: k in keys && k != m ==> Below(m, k)
    decreases keys
  {
    var x :| x in keys;
    if keys == {x} then x
    else
      var m := Least(keys - {x});
      BelowTotal(x, m);
      if Below(x, m) then BelowAllOf(x, m, keys - {x}); x else m
  }

  /** The keys of a sorted map in the order its iteration visits them. */
  ghost function SortedNames(keys: set<string>): (names: seq<string>)
    ensures |names| == |keys|
    ensures forall n :: n in names <==> n in keys
    ensures StrictlySorted(names)
    decreases keys
  {
    if keys == {} then []
    else
      var m := Least(keys);
      var rest := SortedNames(keys - {m});
      assert forall j :: 0 <= j < |rest| ==> rest[j] in keys - {m};
      [m] + rest
  }

  /** `opName.split('.').first`: the operation name up to, and not including,
      its first separator, or the whole name when it has none. */
  function OpDialectName(opName: string): (dialect: string)
    ensures IsValidNamespace(dialect)
    ensures dialect <= opName
    ensures dialect == opName || opName[|dialect|] == Separator
  {
    if |opName| == 0 || opName[0] == Separator then ""
    else [opName[0]] + OpDialectName(opName[1..])
  }

  /** Operation names of a dialect are its namespace, the separator and the
      rest; the split recovers the namespace whatever the rest holds. */
  lemma {:induction false} OpDialectNameOfQualified(namespace: string, rest: string)
    requires IsValidNamespace(namespace)
    ensures OpDialectName(namespace + [Separator] + rest) == namespace
  {
    if |namespace| > 0 {
      var opName := namespace + [Separator] + rest;
      assert opName[1..] == namespace[1..] + [Separator] + rest;
      OpDialectNameOfQualified(namespace[1..], rest);
      assert namespace == [namespace[0]] + namespace[1..];
    }
  }
}
