/** The named locks of src/libstatgrab/globals.c: the table that sg_comp_init builds from the names
    the components declare, and the lookup of sg_lock_mutex and sg_unlock_mutex in it. */
module LockRegistry {
  import opened CString
  import opened Rearrange

  const GLOBAL_NAME := "statgrab"

  function Id(name: string): string { name }

  /** How many of these names, repetitions included, are not among the known ones. */
  ghost function NewNames(names: seq<string>, known: set<string>): nat {
    if |names| == 0 then 0
    else (if names[0] in known then 0 else 1) + NewNames(names[1..], known)
  }

  ghost function AllNames(components: seq<seq<string>>): set<string> {
    set c, i | 0 <= c < |components| && 0 <= i < |components[c]| :: components[c][i]
  }

  lemma StrictIsSorted(s: seq<string>)
    requires StrictlySortedBy(s, Id)
    ensures SortedBy(s, Id)
  {}

  lemma NewNamesStep(names: seq<string>, known: set<string>, i: nat)
    requires i < |names|
    ensures NewNames(names[i..], known) == (if names[i] in known then 0 else 1) + NewNames(names[i + 1..], known)
  {}

  lemma {:induction false} NoNewNames(names: seq<string>, known: set<string>)
    ensures NewNames(names, known) == 0 <==> Elements(names) <= known
  {
    if |names| > 0 {
      NoNewNames(names[1..], known);
      assert names == [names[0]] + names[1..];
      assert Elements(names) == {names[0]} + Elements(names[1..]);
    }
  }

  /** Sorting a strict table with one new name at its end gives a strict table. */
  lemma SortedSetIsStrict(sorted: seq<string>, before: seq<string>, name: string)
    requires SortedBy(sorted, Id) && StrictlySortedBy(before, Id)
    requires name !in Elements(before) && multiset(sorted) == multiset(before + [name])
    ensures StrictlySortedBy(sorted, Id)
    ensures |sorted| == |before| + 1 && Elements(sorted) == Elements(before) + {name}
  {
    assert Distinct(before + [name]) by {
      forall i, j | 0 <= i < j < |before| + 1 ensures (before + [name])[i] != (before + [name])[j] {
        if j < |before| {
          assert Strcmp(Id(before[i]), Id(before[j])) < 0;
          StrcmpZero(before[i], before[j]);
        } else {
          assert before[i] in Elements(before);
        }
      }
    }
    RearrangedStaysDistinct(before + [name], sorted);
    SameLength(sorted, before + [name]);
    SameElements(sorted, before + [name]);
    assert Elements(before + [name]) == Elements(before) + {name} by {
      assert forall i | 0 <= i < |before| :: (before + [name])[i] == before[i];
      assert (before + [name])[|before|] == name;
    }
    forall i, j | 0 <= i < j < |sorted| ensures Strcmp(Id(sorted[i]), Id(sorted[j])) < 0 {
      StrcmpZero(sorted[i], sorted[j]);
    }
  }

  /** required_locks and num_required_locks */
  class LockTable {
    var locks: array<string>
    var count: nat

    ghost predicate Valid()
      reads this, locks
    {
      count <= locks.Length && StrictlySortedBy(locks[..count], Id)
    }

    ghost function Known(): set<string>
      reads this, locks
      requires count <= locks.Length
    {
      Elements(locks[..count])
    }

    constructor ()
      ensures Valid() && fresh(locks) && Known() == {GLOBAL_NAME}
    {
      locks := new string[1](_ => GLOBAL_NAME);
      count := 1;
      new;
      assert locks[..1] == [GLOBAL_NAME];
      ElementsAppend([], GLOBAL_NAME);
      assert [] + [GLOBAL_NAME] == [GLOBAL_NAME];
    }

    /** The bsearch of sg_lock_mutex: the lookup succeeds exactly for the names in the table. */
    method Find(name: string) returns (at: int)
      requires Valid()
      ensures at == -1 <==> name !in Known()
      ensures at != -1 ==> 0 <= at < count && locks[at] == name
    {
      StrictIsSorted(locks[..count]);
      ExactBrackets(locks[..count], Id, name);
      at := BSearch(locks[..count], e => Strcmp(name, Id(e)));
      forall i | 0 <= i < count ensures Strcmp(name, locks[..count][i]) == 0 <==> locks[i] == name {
        StrcmpZero(name, locks[i]);
      }
    }

    /** The first pass over one component: how many names are new, each repetition counted. */
    method CountNew(names: seq<string>) returns (n: nat)
      requires Valid()
      ensures n == NewNames(names, Known())
    {
      n := 0;
      var i := 0;
      while i < |names|
        invariant 0 <= i <= |names|
        invariant n + NewNames(names[i..], Known()) == NewNames(names, Known())
      {
        NewNamesStep(names, Known(), i);
        var at := Find(names[i]);
        if at == -1 {
          n := n + 1;
        }
        i := i + 1;
      }
    }

    /** sg_realloc of the table */
    method Grow(size: nat)
      requires Valid() && count <= size
      modifies this`locks
      ensures Valid() && fresh(locks) && locks.Length == size && locks[..count] == old(locks[..count])
    {
      var before, n := locks, count;
      locks := new string[size](i requires 0 <= i < size reads before => if i < n && i < before.Length then before[i] else "");
    }

    /** Append one name that is not there yet and sort again. */
    method Append(name: string)
      requires Valid() && count < locks.Length && name !in Known()
      modifies this`count, locks
      ensures Valid() && count == old(count) + 1 && Known() == old(Known()) + {name}
    {
      ghost var before := locks[..count];
      locks[count] := name;
      assert locks[..count + 1] == before + [name];
      var sorted := QSort(locks[..count + 1], Id);
      SortedSetIsStrict(sorted, before, name);
      WriteBack(sorted);
      count := count + 1;
    }

    method WriteBack(names: seq<string>)
      requires |names| <= locks.Length
      modifies locks
      ensures locks[..|names|] == names
    {
      var i := 0;
      while i < |names|
        invariant 0 <= i <= |names|
        invariant locks[..i] == names[..i]
      {
        locks[i] := names[i];
        i := i + 1;
      }
    }

    /** Both passes of the component loop: room is made for every new name, and never outgrown. */
    method AddComponent(names: seq<string>)
      requires Valid()
      modifies this, locks
      ensures Valid() && (locks == old(locks) || fresh(locks))
      ensures Known() == old(Known()) + Elements(names)
    {
      var more := CountNew(names);
      ghost var known := Known();
      NoNewNames(names, known);
      if more == 0 {
        return;
      }
      Grow(count + more);
      assert locks[..count] == old(locks[..count]);
      AppendNew(names, known);
    }

    /** The second pass: whatever is still unknown goes in. */
    method AppendNew(names: seq<string>, ghost known: set<string>)
      requires Valid() && known == Known() && count + NewNames(names, known) <= locks.Length
      modifies this`count, locks
      ensures Valid() && Known() == known + Elements(names)
    {
      var i := 0;
      assert Elements(names[..0]) == {};
      while i < |names|
        invariant 0 <= i <= |names| && Valid()
        invariant count + NewNames(names[i..], known) <= locks.Length
        invariant Known() == known + Elements(names[..i])
      {
        ElementsExtend(names, i);
        NewNamesStep(names, known, i);
        var at := Find(names[i]);
        if at == -1 {
          Append(names[i]);
        }
        i := i + 1;
      }
      assert names[..i] == names;
    }
  }

  /** The lock part of sg_comp_init, over all components */
  method BuildLocks(components: seq<seq<string>>) returns (table: LockTable)
    ensures fresh(table) && table.Valid()
    ensures table.Known() == {GLOBAL_NAME} + AllNames(components)
    ensures forall name :: name in table.Known() <==>
              name == "statgrab" || exists c, i | 0 <= c < |components| && 0 <= i < |components[c]| :: components[c][i] == name
  {
    table := new LockTable();
    var c := 0;
    while c < |components|
      invariant 0 <= c <= |components|
      invariant fresh(table) && fresh(table.locks) && table.Valid()
      invariant table.Known() == {GLOBAL_NAME} + AllNames(components[..c])
    {
      table.AddComponent(components[c]);
      AllNamesExtends(components, c);
      c := c + 1;
    }
    assert components[..c] == components;
  }

  lemma AllNamesExtends(components: seq<seq<string>>, c: nat)
    requires c < |components|
    ensures AllNames(components[..c + 1]) == AllNames(components[..c]) + Elements(components[c])
  {}
}
