/**
 * Ordered keyword tables: a Python dict literal iterated in declaration
 * order, where the first keyword that is a substring of the text decides
 * the value. Used by the section-emoji resolver and by the job-title emoji
 * table of the employment renderer.
 */
module Lookup {
  import opened Strings

  /** Keyword/value pairs in declaration order. */
  type Table = seq<(string, string)>

  /** The position of the first entry at or after `from` whose keyword occurs in `text`. */
  function FirstMatchFrom(table: Table, text: string, from: nat): (r: Option<nat>)
    ensures r.Some? ==> from <= r.value < |table| && Contains(text, table[r.value].0)
    ensures r.Some? ==> forall j :: from <= j < r.value ==> !Contains(text, table[j].0)
    ensures r.None? ==> forall j :: from <= j < |table| ==> !Contains(text, table[j].0)
    decreases |table| - from
  {
    if from >= |table| then None
    else if Contains(text, table[from].0) then Some(from)
    else FirstMatchFrom(table, text, from + 1)
  }

  /** The position of the first entry whose keyword occurs in `text`. */
  function FirstMatch(table: Table, text: string): Option<nat> {
    FirstMatchFrom(table, text, 0)
  }

  /** The value of the first matching entry, or `default` when no keyword occurs. */
  function Resolve(table: Table, text: string, default: string): string {
    match FirstMatch(table, text)
    case Some(i) => table[i].1
    case None => default
  }

  /**
   * Table order is a priority order: the value is that of entry `i` exactly
   * when keyword `i` occurs and no earlier keyword does.
   */
  lemma ResolvePriority(table: Table, text: string, default: string, i: nat)
    requires i < |table|
    requires Contains(text, table[i].0)
    requires forall j :: 0 <= j < i ==> !Contains(text, table[j].0)
    ensures Resolve(table, text, default) == table[i].1
  {
  }

  /** No keyword occurs: the default. */
  lemma ResolveDefault(table: Table, text: string, default: string)
    requires forall j :: 0 <= j < |table| ==> !Contains(text, table[j].0)
    ensures Resolve(table, text, default) == default
  {
  }

  /** The result is always one of the table's values or the default. */
  lemma ResolveRange(table: Table, text: string, default: string)
    ensures Resolve(table, text, default) == default
         || exists i :: 0 <= i < |table| && Resolve(table, text, default) == table[i].1
  {
  }
}
