/**
 * Names: the reserved suffix that catalog names may not carry, and the names
 * the service derives for a table's sequence and constraints.
 */
module Naming {
  import opened Wrappers
  import opened Model

  const LookupValuesSuffix := "_lookup_values"

  /**
   * What the regular expression `_lookup_values$` finds when it searches
   * `name`: an occurrence of the suffix that ends where the text ends.
   */
  ghost predicate MatchesSuffixPattern(name: string)
  {
    exists i :: 0 <= i <= |name| && name[i..] == LookupValuesSuffix
  }

  /** checkName: names ending in `_lookup_values` are refused; every other name passes. */
  function CheckName(name: string): (r: Outcome<Error>)
    ensures r.Fail? <==> MatchesSuffixPattern(name)
    ensures r.Fail? ==> r.error == ReservedSuffix && KindOf(r.error) == BadRequest
  {
    var n := |LookupValuesSuffix|;
    if |name| >= n && name[|name| - n..] == LookupValuesSuffix then
      Fail(ReservedSuffix)
    else
      assert forall i :: 0 <= i <= |name| && name[i..] == LookupValuesSuffix ==> i == |name| - n;
      Pass
  }

  /** The sequence PostgreSQL creates for the `id serial` column of table `table`. */
  function IdSequence(table: string): string
  {
    table + "_id_seq"
  }

  function PrimaryKeyName(uuid: Uuid): string
  {
    uuid + "_pk"
  }

  function UniqueKeyName(uuid: Uuid): string
  {
    uuid + "_uk"
  }

  lemma AppendCancel(a: string, b: string, suffix: string)
    requires a + suffix == b + suffix
    ensures a == b
  {
    assert |a| == |b|;
    assert a == (a + suffix)[..|a|];
    assert b == (b + suffix)[..|b|];
  }

  /** Distinct tables have distinct sequences. */
  lemma IdSequenceInjective(a: string, b: string)
    ensures IdSequence(a) == IdSequence(b) <==> a == b
  {
    if IdSequence(a) == IdSequence(b) {
      AppendCancel(a, b, "_id_seq");
    }
  }

  /** Distinct tables have distinct unique-key constraints. */
  lemma UniqueKeyNameInjective(u: Uuid, v: Uuid)
    ensures UniqueKeyName(u) == UniqueKeyName(v) <==> u == v
  {
    if UniqueKeyName(u) == UniqueKeyName(v) {
      AppendCancel(u, v, "_uk");
    }
  }

  /** A primary-key constraint name is never a unique-key constraint name. */
  lemma ConstraintNamesDiffer(u: Uuid, v: Uuid)
    ensures PrimaryKeyName(u) != UniqueKeyName(v)
  {
    var p, k := PrimaryKeyName(u), UniqueKeyName(v);
    assert p[|p| - 2] == 'p' && k[|k| - 2] == 'u';
  }
}
