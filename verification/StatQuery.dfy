/** The query engine of src/statgrab/statgrab.c: building dotted names, choosing the sections that the
    arguments can concern, sorting, and answering each argument by a binary search that is widened to
    a range. */
module StatQuery {
  import opened CString
  import opened Rearrange

  datatype StatType = Number | Bool | String | Duplex

  /** stat_item */
  datatype Stat = Stat(name: string, kind: StatType, value: nat)

  /** The arguments of one add_stat call. */
  datatype RawStat = RawStat(parts: seq<string>, kind: StatType, value: nat)

  function NameOf(s: Stat): string { s.name }

  // ---- names -----------------------------------------------------------------------------------

  function Clean(c: char): char {
    if c == ' ' || c == '.' then '_' else c
  }

  function Sanitize(part: string): (r: string)
    ensures |r| == |part|
  {
    seq(|part|, i requires 0 <= i < |part| => Clean(part[i]))
  }

  /** The parts, each followed by a dot. */
  ghost function Pasted(parts: seq<string>): string {
    if |parts| == 0 then ""
    else Pasted(parts[..|parts| - 1]) + Sanitize(parts[|parts| - 1]) + "."
  }

  /** The parts joined with dots, spaces and dots inside a part replaced. */
  ghost function Dotted(parts: seq<string>): string {
    if |parts| == 0 then ""
    else if |parts| == 1 then Sanitize(parts[0])
    else Dotted(parts[..|parts| - 1]) + "." + Sanitize(parts[|parts| - 1])
  }

  lemma {:induction false} PastedIsDotted(parts: seq<string>)
    requires |parts| > 0
    ensures Pasted(parts) == Dotted(parts) + "."
  {
    if |parts| > 1 {
      PastedIsDotted(parts[..|parts| - 1]);
    }
  }

  /** Where part k begins in the name. */
  ghost function StartOf(parts: seq<string>, k: nat): nat
    requires k <= |parts|
  {
    if k == 0 then 0 else StartOf(parts, k - 1) + |parts[k - 1]| + 1
  }

  lemma {:induction false} StartOfPrefix(parts: seq<string>, n: nat, k: nat)
    requires k <= n <= |parts|
    ensures StartOf(parts[..n], k) == StartOf(parts, k)
  {
    if k > 0 {
      StartOfPrefix(parts, n, k - 1);
    }
  }

  lemma {:induction false} DottedLength(parts: seq<string>)
    requires |parts| > 0
    ensures |Dotted(parts)| == StartOf(parts, |parts|) - 1
  {
    var n := |parts| - 1;
    if n > 0 {
      StartOfPrefix(parts, n, n);
      DottedLength(parts[..n]);
    }
  }

  lemma {:induction false} StartOfGrows(parts: seq<string>, k: nat, n: nat)
    requires k < n <= |parts|
    ensures StartOf(parts, k) + |parts[k]| + 1 <= StartOf(parts, n)
  {
    if k < n - 1 {
      StartOfGrows(parts, k, n - 1);
    }
  }

  lemma DottedLastPart(parts: seq<string>, n: nat)
    requires |parts| == n + 1
    ensures StartOf(parts, n) + |parts[n]| == |Dotted(parts)|
    ensures Dotted(parts)[StartOf(parts, n)..] == Sanitize(parts[n])
    ensures n > 0 ==> Dotted(parts)[..StartOf(parts, n)] == Dotted(parts[..n]) + "."
  {
    DottedLength(parts);
    if n > 0 {
      StartOfPrefix(parts, n, n);
      DottedLength(parts[..n]);
    }
  }

  /** The name, character by character: part after part with a dot between, blanks and dots inside a part
      replaced by underscores. */
  lemma {:induction false} DottedSpelledOut(parts: seq<string>, k: nat)
    requires k < |parts|
    ensures |Dotted(parts)| == StartOf(parts, |parts|) - 1
    ensures StartOf(parts, k) + |parts[k]| <= |Dotted(parts)|
    ensures forall j | 0 <= j < |parts[k]| ::
              Dotted(parts)[StartOf(parts, k) + j] == if parts[k][j] == ' ' || parts[k][j] == '.' then '_' else parts[k][j]
    ensures 0 < k ==> 0 < StartOf(parts, k) && Dotted(parts)[StartOf(parts, k) - 1] == '.'
  {
    var n := |parts| - 1;
    DottedLength(parts);
    StartOfGrows(parts, k, n + 1);
    DottedLastPart(parts, n);
    if k < n {
      StartOfPrefix(parts, n, k);
      DottedSpelledOut(parts[..n], k);
    }
  }

  /** The name-building half of add_stat: measure, paste into a buffer of exactly that size, and put
      the NUL over the last dot. */
  method BuildName(parts: seq<string>) returns (name: string)
    requires |parts| > 0
    ensures name == Dotted(parts)
  {
    var len := Measure(parts);
    var buffer := new char[len](_ => ' ');
    var p := PasteAll(buffer, parts);
    PastedIsDotted(parts);
    name := buffer[..p - 1];
  }

  method Measure(parts: seq<string>) returns (len: nat)
    ensures len == |Pasted(parts)|
  {
    len := 0;
    var i := 0;
    while i < |parts|
      invariant 0 <= i <= |parts| && len == |Pasted(parts[..i])|
    {
      assert parts[..i + 1][..i] == parts[..i];
      len := len + 1 + |parts[i]|;
      i := i + 1;
    }
    assert parts[..i] == parts;
  }

  method PasteAll(buffer: array<char>, parts: seq<string>) returns (p: nat)
    requires buffer.Length == |Pasted(parts)|
    modifies buffer
    ensures p == buffer.Length && buffer[..p] == Pasted(parts)
  {
    p := 0;
    var i := 0;
    while i < |parts|
      invariant 0 <= i <= |parts| && p == |Pasted(parts[..i])| <= buffer.Length == |Pasted(parts)|
      invariant buffer[..p] == Pasted(parts[..i])
    {
      PastedFits(parts, i);
      p := PastePart(buffer, p, parts[i]);
      assert parts[..i + 1][..i] == parts[..i];
      i := i + 1;
    }
    assert parts[..i] == parts;
  }

  lemma {:induction false} PastedGrows(parts: seq<string>, i: nat)
    requires i <= |parts|
    ensures |Pasted(parts[..i])| <= |Pasted(parts)|
  {
    if i < |parts| {
      PastedGrows(parts[..|parts| - 1], i);
      assert parts[..|parts| - 1][..i] == parts[..i];
    } else {
      assert parts[..i] == parts;
    }
  }

  lemma PastedFits(parts: seq<string>, i: nat)
    requires i < |parts|
    ensures |Pasted(parts[..i])| + |parts[i]| + 1 <= |Pasted(parts)|
  {
    PastedGrows(parts, i + 1);
    assert parts[..i + 1][..i] == parts[..i];
  }

  method PastePart(buffer: array<char>, p: nat, part: string) returns (q: nat)
    requires p + |part| + 1 <= buffer.Length
    modifies buffer
    ensures q == p + |part| + 1
    ensures buffer[..q] == old(buffer[..p]) + Sanitize(part) + "."
  {
    var k := 0;
    while k < |part|
      invariant 0 <= k <= |part|
      invariant buffer[..p] == old(buffer[..p]) && buffer[p..p + k] == Sanitize(part)[..k]
    {
      buffer[p + k] := Clean(part[k]);
      k := k + 1;
    }
    buffer[p + k] := '.';
    q := p + k + 1;
    assert buffer[p..p + k] == Sanitize(part);
    assert buffer[..q] == buffer[..p] + buffer[p..p + k] + [buffer[p + k]];
  }

  /** With -r, values that are not numbers are left out. */
  predicate Kept(graphite: bool, kind: StatType) {
    !graphite || kind.Number?
  }

  const INCREMENT_STATS := 64

  /** stat_items, num_stats and alloc_stats */
  class StatTable {
    var items: array<Stat>
    var count: nat

    ghost predicate Valid()
      reads this
    {
      count <= items.Length
    }

    ghost function Contents(): seq<Stat>
      reads this, items
      requires Valid()
    {
      items[..count]
    }

    constructor ()
      ensures Valid() && fresh(items) && Contents() == []
    {
      items := new Stat[0];
      count := 0;
    }

    /** add_stat */
    method AddStat(raw: RawStat, graphite: bool)
      requires Valid() && |raw.parts| > 0
      modifies this, items
      ensures Valid() && (items == old(items) || fresh(items))
      ensures Contents() == old(Contents())
                            + if Kept(graphite, raw.kind) then [Stat(Dotted(raw.parts), raw.kind, raw.value)] else []
      ensures raw.kind == Number || !graphite ==> |Contents()| == |old(Contents())| + 1
      ensures graphite && (raw.kind == Bool || raw.kind == String || raw.kind == Duplex) ==> Contents() == old(Contents())
    {
      if !Kept(graphite, raw.kind) {
        return;
      }
      var name := BuildName(raw.parts);
      var s := Stat(name, raw.kind, raw.value);
      if count >= items.Length {
        var before, n := items, count;
        items := new Stat[items.Length + INCREMENT_STATS](
          i requires 0 <= i < n + INCREMENT_STATS reads before => if i < before.Length then before[i] else s);
      }
      items[count] := s;
      count := count + 1;
    }
  }

  // ---- queries ---------------------------------------------------------------------------------

  predicate EndsWithDot(s: string) {
    |s| > 0 && s[|s| - 1] == '.'
  }

  /** What the user asked for: everything below a prefix that ends in a dot, or one name. */
  predicate Matches(query: string, name: string) {
    if EndsWithDot(query) then query <= name else query == name
  }

  /** The matching stats, in table order. */
  ghost function Matching(table: seq<Stat>, query: string): seq<Stat> {
    if |table| == 0 then []
    else
      var n := |table| - 1;
      Matching(table[..n], query) + if Matches(query, table[n].name) then [table[n]] else []
  }

  /** stats_compare or stats_compare_prefix, with the key fixed */
  function Compare(query: string, s: Stat): int {
    if EndsWithDot(query) then Strncmp(query, s.name, |query|) else Strcmp(query, s.name)
  }

  lemma CompareIsMatch(query: string, s: Stat)
    ensures Compare(query, s) == 0 <==> Matches(query, s.name)
  {
    StrncmpIsPrefix(query, s.name);
    StrcmpZero(query, s.name);
  }

  lemma CompareBrackets(table: seq<Stat>, query: string)
    requires SortedBy(table, NameOf)
    ensures Brackets(table, s => Compare(query, s))
  {
    if EndsWithDot(query) {
      PrefixBrackets(table, NameOf, query);
    } else {
      ExactBrackets(table, NameOf, query);
    }
  }

  lemma SliceExtends<T>(s: seq<T>, lo: nat, n: nat)
    requires lo <= n < |s|
    ensures s[lo..n + 1] == s[..n][lo..n] + [s[n]]
  {}

  lemma SliceOfPrefix<T>(s: seq<T>, n: nat, lo: nat, hi: nat)
    requires lo <= hi <= n <= |s|
    ensures s[..n][lo..hi] == s[lo..hi]
  {}

  /** In a bracketed table the matches are one block. */
  lemma {:induction false} MatchesAreOneBlock(table: seq<Stat>, query: string, lo: nat, hi: nat)
    requires lo <= hi <= |table|
    requires forall i | 0 <= i < |table| :: Matches(query, table[i].name) <==> lo <= i < hi
    ensures Matching(table, query) == table[lo..hi]
  {
    if |table| > 0 {
      var n := |table| - 1;
      if hi == |table| {
        if lo <= n {
          MatchesAreOneBlock(table[..n], query, lo, n);
          SliceExtends(table, lo, n);
        } else {
          MatchesAreOneBlock(table[..n], query, n, n);
        }
      } else {
        MatchesAreOneBlock(table[..n], query, lo, hi);
        SliceOfPrefix(table, n, lo, hi);
      }
    }
  }

  /** One argument of print_stats: bsearch, widen to the left, widen to the right. `found` is false
      when "Unknown stat" is reported. */
  method FindRange(table: seq<Stat>, query: string) returns (found: bool, lo: nat, hi: nat)
    requires |query| > 0
    requires SortedBy(table, NameOf)
    ensures found <==> Matching(table, query) != []
    ensures found ==> lo <= hi <= |table| && table[lo..hi] == Matching(table, query)
  {
    CompareBrackets(table, query);
    var s := BSearch(table, x => Compare(query, x));
    if s == -1 {
      NothingMatches(table, query);
      return false, 0, 0;
    }
    lo, hi := Widen(table, query, s);
    MatchesAreOneBlock(table, query, lo, hi);
    found := true;
  }

  lemma NothingMatches(table: seq<Stat>, query: string)
    requires forall i | 0 <= i < |table| :: Compare(query, table[i]) != 0
    ensures Matching(table, query) == []
  {
    forall i | 0 <= i < |table| ensures !Matches(query, table[i].name) {
      CompareIsMatch(query, table[i]);
    }
    MatchesAreOneBlock(table, query, 0, 0);
  }

  /** From one match to the first and past the last */
  method Widen(table: seq<Stat>, query: string, hit: nat) returns (lo: nat, hi: nat)
    requires Brackets(table, s => Compare(query, s)) && hit < |table| && Compare(query, table[hit]) == 0
    ensures lo <= hit < hi <= |table|
    ensures forall i | 0 <= i < |table| :: Matches(query, table[i].name) <==> lo <= i < hi
  {
    var s: int := hit;
    while s >= 0 && Compare(query, table[s]) == 0
      invariant -1 <= s <= hit
      invariant forall i | s < i <= hit :: Compare(query, table[i]) == 0
      decreases s
    {
      s := s - 1;
    }
    lo := s + 1;
    hi := lo;
    while hi < |table| && Compare(query, table[hi]) == 0
      invariant lo <= hi <= |table|
      invariant forall i | lo <= i < hi :: Compare(query, table[i]) == 0
    {
      hi := hi + 1;
    }
    BlockIsMaximal(table, query, lo, hi, hit);
  }

  lemma BlockIsMaximal(table: seq<Stat>, query: string, lo: nat, hi: nat, hit: nat)
    requires Brackets(table, s => Compare(query, s))
    requires hit < |table| && lo <= hit && lo <= hi <= |table|
    requires forall i | lo <= i <= hit || lo <= i < hi :: Compare(query, table[i]) == 0
    requires lo > 0 ==> Compare(query, table[lo - 1]) != 0
    requires hi < |table| ==> Compare(query, table[hi]) != 0
    ensures forall i | 0 <= i < |table| :: Matches(query, table[i].name) <==> lo <= i < hi
  {
    assert hit < hi;
    var probe := (s: Stat) => Compare(query, s);
    forall i | 0 <= i < |table| ensures Matches(query, table[i].name) <==> lo <= i < hi {
      CompareIsMatch(query, table[i]);
      assert probe(table[i]) == Compare(query, table[i]);
      if i < lo {
        assert probe(table[lo - 1]) != 0 && probe(table[hit]) == 0;
      } else if hi <= i {
        assert probe(table[hi]) != 0 && probe(table[hit]) == 0;
      }
    }
  }

  /** A line of output: a stat, or the complaint about an argument. */
  datatype Line = Shown(stat: Stat) | Unknown(query: string)

  ghost function ShowAll(stats: seq<Stat>): seq<Line> {
    seq(|stats|, i requires 0 <= i < |stats| => Shown(stats[i]))
  }

  ghost function Answer(table: seq<Stat>, query: string): seq<Line> {
    if Matching(table, query) == [] then [Unknown(query)] else ShowAll(Matching(table, query))
  }

  /** The answers to the arguments, one after another; without arguments, the whole table. */
  ghost function Answers(table: seq<Stat>, queries: seq<string>): seq<Line> {
    if |queries| == 0 then []
    else Answers(table, queries[..|queries| - 1]) + Answer(table, queries[|queries| - 1])
  }

  /** These lines answer one argument: `at` are the indices of all stats whose name is the argument, or
      begins with it if it ends in a dot; they are shown in increasing order, and if there are none the
      argument is unknown. */
  ghost predicate Block(table: seq<Stat>, query: string, lines: seq<Line>, at: seq<nat>) {
    && (forall m, n | 0 <= m < n < |at| :: at[m] < at[n])
    && (forall k: nat :: k in at <==>
          k < |table| && if |query| > 0 && query[|query| - 1] == '.' then query <= table[k].name else query == table[k].name)
    && if at == [] then lines == [Unknown(query)]
       else |lines| == |at| && forall m | 0 <= m < |at| :: at[m] < |table| && lines[m] == Shown(table[at[m]])
  }

  /** Argument i is answered by the lines from cuts[i] to cuts[i + 1]. */
  ghost predicate BlockAt(table: seq<Stat>, queries: seq<string>, lines: seq<Line>, cuts: seq<nat>, at: seq<seq<nat>>, i: nat) {
    && i < |queries| && i + 1 < |cuts| && i < |at|
    && cuts[i] <= cuts[i + 1] <= |lines|
    && Block(table, queries[i], lines[cuts[i]..cuts[i + 1]], at[i])
  }

  /** The lines are one such block after another, in the order of the arguments, and nothing else. */
  ghost predicate InTurn(table: seq<Stat>, queries: seq<string>, lines: seq<Line>, cuts: seq<nat>, at: seq<seq<nat>>) {
    && |cuts| == |queries| + 1 && |at| == |queries| && cuts[0] == 0 && cuts[|queries|] == |lines|
    && forall i: nat | i < |queries| :: BlockAt(table, queries, lines, cuts, at, i)
  }

  /** The indices of the matching stats. */
  ghost function MatchingAt(table: seq<Stat>, query: string): seq<nat> {
    if |table| == 0 then []
    else
      var n := |table| - 1;
      MatchingAt(table[..n], query) + if Matches(query, table[n].name) then [n] else []
  }

  lemma {:induction false} MatchingIsAt(table: seq<Stat>, query: string)
    ensures var at := MatchingAt(table, query);
            |Matching(table, query)| == |at| && forall m | 0 <= m < |at| :: at[m] < |table| && Matching(table, query)[m] == table[at[m]]
  {
    if |table| > 0 {
      MatchingIsAt(table[..|table| - 1], query);
    }
  }

  lemma {:induction false} MatchingAtIncreases(table: seq<Stat>, query: string)
    ensures forall m, n | 0 <= m < n < |MatchingAt(table, query)| :: MatchingAt(table, query)[m] < MatchingAt(table, query)[n]
  {
    if |table| > 0 {
      MatchingAtIncreases(table[..|table| - 1], query);
      MatchingIsAt(table[..|table| - 1], query);
    }
  }

  lemma {:induction false} MatchingAtAll(table: seq<Stat>, query: string, k: nat)
    ensures k in MatchingAt(table, query) <==> k < |table| && Matches(query, table[k].name)
  {
    if |table| > 0 {
      MatchingAtAll(table[..|table| - 1], query, k);
    }
  }

  lemma AnswerIsBlock(table: seq<Stat>, query: string)
    ensures Block(table, query, Answer(table, query), MatchingAt(table, query))
  {
    MatchingIsAt(table, query);
    MatchingAtIncreases(table, query);
    forall k: nat ensures k in MatchingAt(table, query) <==> k < |table| && Matches(query, table[k].name) {
      MatchingAtAll(table, query, k);
    }
  }

  lemma {:induction false} AnswersInTurn(table: seq<Stat>, queries: seq<string>) returns (cuts: seq<nat>, at: seq<seq<nat>>)
    ensures InTurn(table, queries, Answers(table, queries), cuts, at)
  {
    if |queries| == 0 {
      cuts, at := [0], [];
    } else {
      var n := |queries| - 1;
      var c, a := AnswersInTurn(table, queries[..n]);
      AnswerIsBlock(table, queries[n]);
      cuts, at := c + [|Answers(table, queries)|], a + [MatchingAt(table, queries[n])];
      OneMoreBlock(table, queries, Answers(table, queries[..n]), Answer(table, queries[n]), c, a, MatchingAt(table, queries[n]));
    }
  }

  lemma OneMoreBlock(table: seq<Stat>, queries: seq<string>, lines: seq<Line>, block: seq<Line>, cuts: seq<nat>, at: seq<seq<nat>>, last: seq<nat>)
    requires |queries| > 0 && InTurn(table, queries[..|queries| - 1], lines, cuts, at) && Block(table, queries[|queries| - 1], block, last)
    ensures InTurn(table, queries, lines + block, cuts + [|lines + block|], at + [last])
  {
    var n := |queries| - 1;
    var all, cuts', at' := lines + block, cuts + [|lines + block|], at + [last];
    forall i: nat | i < |queries| ensures BlockAt(table, queries, all, cuts', at', i) {
      if i < n {
        assert BlockAt(table, queries[..n], lines, cuts, at, i);
        assert all[cuts[i]..cuts[i + 1]] == lines[cuts[i]..cuts[i + 1]];
      } else {
        assert all[|lines|..|all|] == block;
      }
    }
  }

  /** print_stats */
  method PrintStats(table: seq<Stat>, queries: seq<string>)
    returns (lines: seq<Line>, ghost cuts: seq<nat>, ghost at: seq<seq<nat>>)
    requires SortedBy(table, NameOf)
    requires forall i | 0 <= i < |queries| :: |queries[i]| > 0
    ensures lines == if queries == [] then ShowAll(table) else Answers(table, queries)
    ensures queries == [] ==> |lines| == |table| && forall i | 0 <= i < |table| :: lines[i] == Shown(table[i])
    ensures queries != [] ==> InTurn(table, queries, lines, cuts, at)
  {
    cuts, at := AnswersInTurn(table, queries);
    lines := [];
    if |queries| == 0 {
      lines := PrintRange(table, 0, |table|);
      assert table[0..|table|] == table;
      return;
    }
    var i := 0;
    while i < |queries|
      invariant 0 <= i <= |queries| && lines == Answers(table, queries[..i])
    {
      var found, lo, hi := FindRange(table, queries[i]);
      assert queries[..i + 1][..i] == queries[..i];
      if found {
        var shown := PrintRange(table, lo, hi);
        lines := lines + shown;
      } else {
        lines := lines + [Unknown(queries[i])];
      }
      i := i + 1;
    }
    assert queries[..i] == queries;
  }

  method PrintRange(table: seq<Stat>, lo: nat, hi: nat) returns (lines: seq<Line>)
    requires lo <= hi <= |table|
    ensures lines == ShowAll(table[lo..hi])
  {
    lines := [];
    var s := lo;
    while s < hi
      invariant lo <= s <= hi && |lines| == s - lo
      invariant forall k | 0 <= k < s - lo :: lines[k] == Shown(table[lo + k])
    {
      lines := lines + [Shown(table[s])];
      s := s + 1;
    }
  }

  // ---- sections --------------------------------------------------------------------------------

  /** The toplevels table, without the populate functions. */
  const SECTIONS: seq<string> := ["const.", "cpu.", "mem.", "load.", "user.", "swap.", "general.", "fs.",
                                  "disk.", "proc.", "net.", "page."]

  /** A section name: something, and then its only dot. */
  ghost predicate IsSectionName(s: string) {
    |s| > 1 && s[|s| - 1] == '.' && forall i | 0 <= i < |s| - 1 :: s[i] != '.' && s[i] != ' '
  }

  lemma SectionsAreSectionNames()
    ensures forall k | 0 <= k < |SECTIONS| :: IsSectionName(SECTIONS[k])
    ensures forall j, k | 0 <= j < k < |SECTIONS| :: SECTIONS[j] != SECTIONS[k]
  {}

  /** Section names are prefix-free: no string starts with two of them. */
  lemma OnlyOneSection(a: string, b: string, s: string)
    requires IsSectionName(a) && IsSectionName(b) && a <= s && b <= s
    ensures a == b
  {}

  /** Some argument starts with the section's name, or there are no arguments. */
  ghost predicate Interesting(args: seq<string>, section: string) {
    args == [] || exists i | 0 <= i < |args| :: section <= args[i]
  }

  /** select_interesting; each argument stops at the first section it starts with */
  method SelectInteresting(sections: seq<string>, args: seq<string>) returns (flags: seq<bool>)
    requires forall k | 0 <= k < |sections| :: IsSectionName(sections[k])
    requires forall j, k | 0 <= j < k < |sections| :: sections[j] != sections[k]
    ensures |flags| == |sections|
    ensures forall k | 0 <= k < |sections| :: flags[k] <==> Interesting(args, sections[k])
  {
    if |args| == 0 {
      flags := seq(|sections|, _ => true);
      return;
    }
    flags := seq(|sections|, _ => false);
    var i := 0;
    while i < |args|
      invariant 0 <= i <= |args| && |flags| == |sections|
      invariant forall k | 0 <= k < |sections| :: flags[k] <==> exists j | 0 <= j < i :: sections[k] <= args[j]
    {
      var t := 0;
      while t < |sections| && Strncmp(args[i], sections[t], |sections[t]|) != 0
        invariant 0 <= t <= |sections|
        invariant forall k | 0 <= k < t :: !(sections[k] <= args[i])
      {
        StrncmpArgument(args[i], sections[t]);
        t := t + 1;
      }
      ghost var before := flags;
      if t < |sections| {
        StrncmpArgument(args[i], sections[t]);
        flags := flags[t := true];
      }
      forall k | 0 <= k < |sections| ensures flags[k] <==> before[k] || sections[k] <= args[i] {
        if t < k && sections[k] <= args[i] && t < |sections| {
          OnlyOneSection(sections[t], sections[k], args[i]);
        }
      }
      i := i + 1;
    }
  }

  /** strncmp with the section on the right-hand side, over the section's length */
  lemma {:induction false} StrncmpArgument(arg: string, section: string)
    ensures Strncmp(arg, section, |section|) == 0 <==> section <= arg
  {
    if |arg| > 0 && |section| > 0 && arg[0] == section[0] {
      StrncmpArgument(arg[1..], section[1..]);
      assert arg == [arg[0]] + arg[1..] && section == [section[0]] + section[1..];
    }
  }

  // ---- pruning ---------------------------------------------------------------------------------

  /** What a populate function hands to add_stat: the section's word, then at least one more part. */
  ghost predicate BelongsTo(raw: RawStat, section: string)
    requires |section| > 0
  {
    |raw.parts| >= 2 && raw.parts[0] == section[..|section| - 1]
  }

  ghost function StatsOf(raws: seq<RawStat>, graphite: bool): seq<Stat> {
    if |raws| == 0 then []
    else
      var n := |raws| - 1;
      var before := StatsOf(raws[..n], graphite);
      if Kept(graphite, raws[n].kind) then before + [Stat(Dotted(raws[n].parts), raws[n].kind, raws[n].value)] else before
  }

  ghost predicate Consistent(sections: seq<string>, supply: seq<seq<RawStat>>) {
    && |supply| == |sections|
    && (forall k | 0 <= k < |sections| :: IsSectionName(sections[k]))
    && forall k, i | 0 <= k < |sections| && 0 <= i < |supply[k]| :: BelongsTo(supply[k][i], sections[k])
  }

  /** get_stats before sorting: the stats of the sections that are switched on. */
  ghost function Gather(supply: seq<seq<RawStat>>, flags: seq<bool>, graphite: bool): seq<Stat>
    requires |flags| == |supply|
  {
    if |supply| == 0 then []
    else
      var n := |supply| - 1;
      var before := Gather(supply[..n], flags[..n], graphite);
      if flags[n] then before + StatsOf(supply[n], graphite) else before
  }

  lemma {:induction false} GatherNothing(supply: seq<seq<RawStat>>, flags: seq<bool>, graphite: bool)
    requires |flags| == |supply| && forall k | 0 <= k < |supply| :: supply[k] == []
    ensures Gather(supply, flags, graphite) == []
  {
    if |supply| > 0 {
      GatherNothing(supply[..|supply| - 1], flags[..|supply| - 1], graphite);
    }
  }

  /** What one more add_stat call of a populate function changes: the table holds that stat once more, if
      its section is switched on and it is a number or -r was not given. With the law above this determines
      the contents of the table. */
  lemma {:induction false} GatherOneMore(supply: seq<seq<RawStat>>, flags: seq<bool>, graphite: bool, k: nat, raw: RawStat, x: Stat)
    requires |flags| == |supply| && k < |supply|
    ensures multiset(Gather(supply[k := supply[k] + [raw]], flags, graphite))[x]
         == multiset(Gather(supply, flags, graphite))[x]
            + if flags[k] && (!graphite || raw.kind == Number) && x == Stat(Dotted(raw.parts), raw.kind, raw.value) then 1 else 0
  {
    var n := |supply| - 1;
    if k < n {
      GatherOneMore(supply[..n], flags[..n], graphite, k, raw, x);
      GatherElsewhere(supply, flags, graphite, k, supply[k] + [raw], x);
    } else {
      GatherLast(supply, flags, graphite, supply[n] + [raw], x);
      StatsOneMore(supply[n], graphite, raw, x);
    }
  }

  lemma GatherElsewhere(supply: seq<seq<RawStat>>, flags: seq<bool>, graphite: bool, k: nat, raws: seq<RawStat>, x: Stat)
    requires |flags| == |supply| && k < |supply| - 1
    ensures var n := |supply| - 1;
            multiset(Gather(supply[k := raws], flags, graphite))[x] + multiset(Gather(supply[..n], flags[..n], graphite))[x]
            == multiset(Gather(supply, flags, graphite))[x] + multiset(Gather(supply[..n][k := raws], flags[..n], graphite))[x]
  {
    var n := |supply| - 1;
    GatherUnfolds(supply, flags, graphite, x);
    GatherUnfolds(supply[k := raws], flags, graphite, x);
    assert supply[k := raws][..n] == supply[..n][k := raws];
  }

  lemma GatherLast(supply: seq<seq<RawStat>>, flags: seq<bool>, graphite: bool, raws: seq<RawStat>, x: Stat)
    requires |flags| == |supply| > 0
    ensures var n := |supply| - 1;
            multiset(Gather(supply[n := raws], flags, graphite))[x] + (if flags[n] then multiset(StatsOf(supply[n], graphite))[x] else 0)
            == multiset(Gather(supply, flags, graphite))[x] + if flags[n] then multiset(StatsOf(raws, graphite))[x] else 0
  {
    var n := |supply| - 1;
    GatherUnfolds(supply, flags, graphite, x);
    GatherUnfolds(supply[n := raws], flags, graphite, x);
    assert supply[n := raws][..n] == supply[..n];
  }

  lemma GatherUnfolds(supply: seq<seq<RawStat>>, flags: seq<bool>, graphite: bool, x: Stat)
    requires |flags| == |supply| > 0
    ensures var n := |supply| - 1;
            multiset(Gather(supply, flags, graphite))[x]
            == multiset(Gather(supply[..n], flags[..n], graphite))[x] + if flags[n] then multiset(StatsOf(supply[n], graphite))[x] else 0
  {}

  lemma StatsOneMore(raws: seq<RawStat>, graphite: bool, raw: RawStat, x: Stat)
    ensures multiset(StatsOf(raws + [raw], graphite))[x]
         == multiset(StatsOf(raws, graphite))[x]
            + if (!graphite || raw.kind == Number) && x == Stat(Dotted(raw.parts), raw.kind, raw.value) then 1 else 0
  {
    assert (raws + [raw])[..|raws|] == raws;
  }

  /** get_stats: refill the table from the interesting sections and sort it */
  method GetStats(supply: seq<seq<RawStat>>, flags: seq<bool>, graphite: bool) returns (table: seq<Stat>)
    requires |flags| == |supply|
    requires forall k, i | 0 <= k < |supply| && 0 <= i < |supply[k]| :: |supply[k][i].parts| > 0
    ensures SortedBy(table, NameOf) && multiset(table) == multiset(Gather(supply, flags, graphite))
  {
    var stats := new StatTable();
    var k := 0;
    while k < |supply|
      invariant 0 <= k <= |supply| && fresh(stats) && fresh(stats.items) && stats.Valid()
      invariant stats.Contents() == Gather(supply[..k], flags[..k], graphite)
    {
      assert supply[..k + 1][..k] == supply[..k] && flags[..k + 1][..k] == flags[..k];
      if flags[k] {
        Populate(stats, supply[k], graphite);
      }
      k := k + 1;
    }
    assert supply[..k] == supply && flags[..k] == flags;
    table := QSort(stats.items[..stats.count], NameOf);
  }

  /** One populate function */
  method Populate(stats: StatTable, raws: seq<RawStat>, graphite: bool)
    requires stats.Valid()
    requires forall i | 0 <= i < |raws| :: |raws[i].parts| > 0
    modifies stats, stats.items
    ensures stats.Valid() && (stats.items == old(stats.items) || fresh(stats.items))
    ensures stats.Contents() == old(stats.Contents()) + StatsOf(raws, graphite)
  {
    var i := 0;
    while i < |raws|
      invariant 0 <= i <= |raws| && stats.Valid() && (stats.items == old(stats.items) || fresh(stats.items))
      invariant stats.Contents() == old(stats.Contents()) + StatsOf(raws[..i], graphite)
    {
      assert raws[..i + 1][..i] == raws[..i];
      stats.AddStat(raws[i], graphite);
      i := i + 1;
    }
    assert raws[..i] == raws;
  }

  lemma {:induction false} DottedStartsWithFirst(parts: seq<string>)
    requires |parts| >= 2
    ensures Sanitize(parts[0]) + "." <= Dotted(parts)
  {
    if |parts| > 2 {
      DottedStartsWithFirst(parts[..|parts| - 1]);
    }
  }

  /** Every name of a section starts with the section's dotted name. */
  lemma NameStartsWithSection(raw: RawStat, section: string)
    requires IsSectionName(section) && BelongsTo(raw, section)
    ensures section <= Dotted(raw.parts)
  {
    DottedStartsWithFirst(raw.parts);
    assert Sanitize(raw.parts[0]) == section[..|section| - 1];
    assert section == section[..|section| - 1] + ".";
  }

  /** A non-empty query can only match names of a section it starts with. */
  lemma QueryNamesItsSection(query: string, name: string, section: string)
    requires |query| > 0 && IsSectionName(section) && section <= name
    ensures Matches(query, name) ==> section <= query
  {}

  lemma {:induction false} MatchingConcat(a: seq<Stat>, b: seq<Stat>, query: string)
    ensures Matching(a + b, query) == Matching(a, query) + Matching(b, query)
  {
    if |b| == 0 {
      assert a + b == a;
    } else {
      assert (a + b)[..|a + b| - 1] == a + b[..|b| - 1];
      MatchingConcat(a, b[..|b| - 1], query);
    }
  }

  lemma MatchingOne(table: seq<Stat>, s: Stat, query: string)
    requires !Matches(query, s.name)
    ensures Matching(table + [s], query) == Matching(table, query)
  {}

  /** A section that the query does not start with contributes nothing. */
  lemma {:induction false} OtherSectionsDoNotMatch(raws: seq<RawStat>, section: string, query: string, graphite: bool)
    requires |query| > 0 && IsSectionName(section) && !(section <= query)
    requires forall i | 0 <= i < |raws| :: BelongsTo(raws[i], section)
    ensures Matching(StatsOf(raws, graphite), query) == []
  {
    if |raws| > 0 {
      var n := |raws| - 1;
      OtherSectionsDoNotMatch(raws[..n], section, query, graphite);
      if Kept(graphite, raws[n].kind) {
        NameStartsWithSection(raws[n], section);
        QueryNamesItsSection(query, Dotted(raws[n].parts), section);
        MatchingOne(StatsOf(raws[..n], graphite), Stat(Dotted(raws[n].parts), raws[n].kind, raws[n].value), query);
      }
    }
  }

  lemma ConsistentPrefix(sections: seq<string>, supply: seq<seq<RawStat>>, n: nat)
    requires Consistent(sections, supply) && n <= |sections|
    ensures Consistent(sections[..n], supply[..n])
  {}

  /** Unsorted, the chosen sections and all sections hold the same matches in the same order. */
  lemma {:induction false} PruningKeepsMatches(sections: seq<string>, supply: seq<seq<RawStat>>, flags: seq<bool>, all: seq<bool>,
                                               graphite: bool, query: string)
    requires Consistent(sections, supply) && |flags| == |all| == |sections| && |query| > 0
    requires forall k | 0 <= k < |sections| :: all[k] && (sections[k] <= query ==> flags[k])
    ensures Matching(Gather(supply, flags, graphite), query) == Matching(Gather(supply, all, graphite), query)
    decreases |sections|
  {
    if |sections| > 0 {
      var n := |sections| - 1;
      ConsistentPrefix(sections, supply, n);
      PruningKeepsMatches(sections[..n], supply[..n], flags[..n], all[..n], graphite, query);
      var own := StatsOf(supply[n], graphite);
      MatchingConcat(Gather(supply[..n], flags[..n], graphite), own, query);
      MatchingConcat(Gather(supply[..n], all[..n], graphite), own, query);
      if !flags[n] {
        OtherSectionsDoNotMatch(supply[n], sections[n], query, graphite);
      }
    }
  }

  // ---- sorting does not matter beyond ties --------------------------------------------------------

  ghost function Names(stats: seq<Stat>): (r: seq<string>)
    ensures |r| == |stats| && forall i | 0 <= i < |r| :: r[i] == stats[i].name
  {
    seq(|stats|, i requires 0 <= i < |stats| => stats[i].name)
  }

  function Self(s: string): string { s }

  /** Matching picks exactly the matching occurrences. */
  lemma {:induction false} MatchingCounts(table: seq<Stat>, query: string, x: Stat)
    ensures multiset(Matching(table, query))[x] == if Matches(query, x.name) then multiset(table)[x] else 0
  {
    if |table| > 0 {
      var n := |table| - 1;
      MatchingCounts(table[..n], query, x);
      assert table == table[..n] + [table[n]];
    }
  }

  lemma MatchingOfRearranged(a: seq<Stat>, b: seq<Stat>, query: string)
    requires multiset(a) == multiset(b)
    ensures multiset(Matching(a, query)) == multiset(Matching(b, query))
  {
    forall x ensures multiset(Matching(a, query))[x] == multiset(Matching(b, query))[x] {
      MatchingCounts(a, query, x);
      MatchingCounts(b, query, x);
    }
  }

  lemma {:induction false} MatchingStaysSorted(table: seq<Stat>, query: string)
    requires SortedBy(table, NameOf)
    ensures SortedBy(Matching(table, query), NameOf)
    ensures forall x | x in Matching(table, query) :: x in table
  {
    if |table| > 0 {
      var n := |table| - 1;
      MatchingStaysSorted(table[..n], query);
      var before := Matching(table[..n], query);
      forall i | 0 <= i < |before| ensures Strcmp(before[i].name, table[n].name) <= 0 {
        assert before[i] in table[..n];
        var k :| 0 <= k < n && table[k] == before[i];
        assert Strcmp(NameOf(table[k]), NameOf(table[n])) <= 0;
      }
    }
  }

  lemma NamesWithoutOne(b: seq<Stat>, j: nat)
    requires j < |b|
    ensures multiset(Names(b)) == multiset(Names(b[..j] + b[j + 1..])) + multiset{b[j].name}
  {
    RemoveOne(Names(b), j);
    assert Names(b[..j] + b[j + 1..]) == Names(b)[..j] + Names(b)[j + 1..];
    assert Names(b)[j] in multiset(Names(b));
  }

  lemma {:induction false} NamesOfRearranged(a: seq<Stat>, b: seq<Stat>)
    requires multiset(a) == multiset(b)
    ensures multiset(Names(a)) == multiset(Names(b))
  {
    SameLength(a, b);
    if |a| > 0 {
      var n := |a| - 1;
      assert a[n] in multiset(b);
      var j :| 0 <= j < |b| && b[j] == a[n];
      DropLast(a, n);
      RemoveOne(b, j);
      NamesOfRearranged(a[..n], b[..j] + b[j + 1..]);
      NamesWithoutOne(b, j);
      NamesWithoutOne(a, n);
      assert a[..n] + a[n + 1..] == a[..n];
    }
  }

  /** A sorted sequence of strings is determined by its contents. */
  lemma {:induction false} SortedIsUnique(p: seq<string>, q: seq<string>)
    requires SortedBy(p, Self) && SortedBy(q, Self) && multiset(p) == multiset(q)
    ensures p == q
  {
    SameLength(p, q);
    if |p| > 0 {
      var n := |p| - 1;
      LastsAgree(p, q, n);
      DropLast(p, n);
      DropLast(q, n);
      SortedIsUnique(p[..n], q[..n]);
      assert p == p[..n] + [p[n]] && q == q[..n] + [q[n]];
    }
  }

  lemma LastsAgree(p: seq<string>, q: seq<string>, n: nat)
    requires SortedBy(p, Self) && SortedBy(q, Self) && multiset(p) == multiset(q) && |p| == |q| == n + 1
    ensures p[n] == q[n]
  {
    assert q[n] in multiset(q) && p[n] in multiset(p);
    LastIsGreatest(p, q[n]);
    LastIsGreatest(q, p[n]);
    StrcmpFlips(p[n], q[n]);
    StrcmpZero(p[n], q[n]);
  }

  lemma LastIsGreatest(p: seq<string>, x: string)
    requires SortedBy(p, Self) && x in multiset(p)
    ensures |p| > 0 && Strcmp(x, p[|p| - 1]) <= 0
  {
    assert x in p;
    var k :| 0 <= k < |p| && p[k] == x;
    if k == |p| - 1 {
      StrcmpZero(x, x);
    } else {
      assert Strcmp(Self(p[k]), Self(p[|p| - 1])) <= 0;
    }
  }

  /** Two tables sorted by name with the same contents agree on all names, position by position. */
  lemma SortedTablesAgree(a: seq<Stat>, b: seq<Stat>)
    requires SortedBy(a, NameOf) && SortedBy(b, NameOf) && multiset(a) == multiset(b)
    ensures Names(a) == Names(b)
  {
    NamesOfRearranged(a, b);
    forall i, j | 0 <= i < j < |a| ensures Strcmp(Self(Names(a)[i]), Self(Names(a)[j])) <= 0 {
      assert Strcmp(NameOf(a[i]), NameOf(a[j])) <= 0;
    }
    forall i, j | 0 <= i < j < |b| ensures Strcmp(Self(Names(b)[i]), Self(Names(b)[j])) <= 0 {
      assert Strcmp(NameOf(b[i]), NameOf(b[j])) <= 0;
    }
    SortedIsUnique(Names(a), Names(b));
  }

  /** Stats that share a name are the same stat. */
  ghost predicate TiesAgree(stats: seq<Stat>) {
    forall i, j | 0 <= i < j < |stats| && stats[i].name == stats[j].name :: stats[i] == stats[j]
  }

  /** What qsort may make of these stats. */
  ghost predicate SortedFrom(table: seq<Stat>, stats: seq<Stat>) {
    SortedBy(table, NameOf) && multiset(table) == multiset(stats)
  }

  /** However qsort breaks ties, the table of the chosen sections and the table of all sections give an
      argument the same stats under the same names in the same order; both or neither complain; and the
      lines are the very same if ties agree. */
  lemma PruningPreservesAnswers(sections: seq<string>, supply: seq<seq<RawStat>>, flags: seq<bool>, all: seq<bool>, graphite: bool,
                                args: seq<string>, pruned: seq<Stat>, full: seq<Stat>, i: nat)
    requires Consistent(sections, supply) && |flags| == |all| == |sections|
    requires forall k | 0 <= k < |sections| :: all[k] && (flags[k] <==> Interesting(args, sections[k]))
    requires SortedFrom(pruned, Gather(supply, flags, graphite)) && SortedFrom(full, Gather(supply, all, graphite))
    requires i < |args| && |args[i]| > 0
    ensures Names(Matching(pruned, args[i])) == Names(Matching(full, args[i]))
    ensures multiset(Matching(pruned, args[i])) == multiset(Matching(full, args[i]))
    ensures Matching(pruned, args[i]) == [] <==> Matching(full, args[i]) == []
    ensures TiesAgree(Matching(full, args[i])) ==> Answer(pruned, args[i]) == Answer(full, args[i])
  {
    PruningKeepsMatches(sections, supply, flags, all, graphite, args[i]);
    SameUpToTies(Gather(supply, flags, graphite), Gather(supply, all, graphite), pruned, full, args[i]);
  }

  lemma SameUpToTies(p: seq<Stat>, f: seq<Stat>, pruned: seq<Stat>, full: seq<Stat>, query: string)
    requires Matching(p, query) == Matching(f, query) && SortedFrom(pruned, p) && SortedFrom(full, f)
    ensures var a, b := Matching(pruned, query), Matching(full, query);
            Names(a) == Names(b) && multiset(a) == multiset(b) == multiset(Matching(f, query)) && |a| == |b|
            && (TiesAgree(b) ==> a == b)
  {
    MatchingOfRearranged(pruned, p, query);
    MatchingOfRearranged(full, f, query);
    MatchingStaysSorted(pruned, query);
    MatchingStaysSorted(full, query);
    var a, b := Matching(pruned, query), Matching(full, query);
    SortedTablesAgree(a, b);
    assert |a| == |Names(a)| == |Names(b)| == |b|;
    if TiesAgree(b) {
      NamesDetermine(a, b);
    }
  }

  lemma NamesDetermine(a: seq<Stat>, b: seq<Stat>)
    requires Names(a) == Names(b) && multiset(a) == multiset(b) && TiesAgree(b)
    ensures a == b
  {
    assert |a| == |Names(a)| == |Names(b)| == |b|;
    forall k | 0 <= k < |a| ensures a[k] == b[k] {
      assert a[k] in multiset(a);
      assert a[k] in b;
      var j :| 0 <= j < |b| && b[j] == a[k];
      assert Names(a)[k] == Names(b)[k];
    }
  }

  // ---- ties decide whether the lines are always the same -------------------------------------------

  /** Stats can be sorted. */
  lemma {:induction false} SortedExists(stats: seq<Stat>) returns (table: seq<Stat>)
    ensures SortedFrom(table, stats)
  {
    if |stats| == 0 {
      table := [];
    } else {
      var n := |stats| - 1;
      var before := SortedExists(stats[..n]);
      table := OneMore(before, stats[n]);
      assert stats == stats[..n] + [stats[n]];
    }
  }

  /** A stat put where it belongs in a sorted table; queries that it does not match see no change. */
  lemma OneMore(table: seq<Stat>, x: Stat) returns (more: seq<Stat>)
    requires SortedBy(table, NameOf)
    ensures SortedBy(more, NameOf) && multiset(more) == multiset(table) + multiset{x}
    ensures forall query | !Matches(query, x.name) :: Matching(more, query) == Matching(table, query)
  {
    var p := Position(table, x, NameOf);
    InsertKeepsSorted(table, p, x, NameOf);
    InsertKeepsContents(table, p, x);
    more := table[..p] + [x] + table[p..];
    forall query | !Matches(query, x.name) ensures Matching(more, query) == Matching(table, query) {
      MatchingWithout(table[..p], x, table[p..], query);
      assert table == table[..p] + table[p..];
    }
  }

  lemma MatchingWithout(a: seq<Stat>, x: Stat, b: seq<Stat>, query: string)
    requires !Matches(query, x.name)
    ensures Matching(a + [x] + b, query) == Matching(a + b, query)
  {
    MatchingConcat(a + [x], b, query);
    MatchingConcat(a, b, query);
    MatchingOne(a, x, query);
  }

  /** Two stats that share a name may change places. */
  lemma SwapTies(table: seq<Stat>, i: nat, j: nat) returns (other: seq<Stat>)
    requires SortedBy(table, NameOf) && i < |table| && j < |table| && table[i].name == table[j].name
    ensures SortedFrom(other, table) && Names(other) == Names(table) && |other| == |table| && other[i] == table[j]
  {
    other := table[i := table[j]][j := table[i]];
    forall k, l | 0 <= k < l < |other| ensures Strcmp(NameOf(other[k]), NameOf(other[l])) <= 0 {
      assert other[k].name == table[k].name && other[l].name == table[l].name;
      assert Strcmp(NameOf(table[k]), NameOf(table[l])) <= 0;
    }
  }

  /** Tables with the same names that give the same matches agree wherever something matches. */
  lemma {:induction false} MatchingDetermines(a: seq<Stat>, b: seq<Stat>, query: string, k: nat)
    requires |a| == |b| && (forall i | 0 <= i < |a| :: a[i].name == b[i].name) && Matching(a, query) == Matching(b, query)
    requires k < |a| && Matches(query, a[k].name)
    ensures a[k] == b[k]
  {
    var n := |a| - 1;
    SameCount(a[..n], b[..n], query);
    var before, before' := Matching(a[..n], query), Matching(b[..n], query);
    if Matches(query, a[n].name) {
      assert Matching(a, query) == before + [a[n]] && Matching(b, query) == before' + [b[n]];
      assert (before + [a[n]])[|before|] == a[n] && (before' + [b[n]])[|before|] == b[n];
      assert (before + [a[n]])[..|before|] == before && (before' + [b[n]])[..|before|] == before';
    } else {
      assert Matching(a, query) == before && Matching(b, query) == before';
    }
    assert before == before';
    if k < n {
      MatchingDetermines(a[..n], b[..n], query, k);
    }
  }

  lemma {:induction false} SameCount(a: seq<Stat>, b: seq<Stat>, query: string)
    requires |a| == |b| && forall i | 0 <= i < |a| :: a[i].name == b[i].name
    ensures |Matching(a, query)| == |Matching(b, query)|
  {
    if |a| > 0 {
      SameCount(a[..|a| - 1], b[..|b| - 1], query);
    }
  }

  /** Where two stats under one name differ, the same stats can be sorted in two ways that show. */
  lemma TiesCanShow(stats: seq<Stat>, query: string) returns (table: seq<Stat>, other: seq<Stat>)
    requires !TiesAgree(Matching(stats, query))
    ensures SortedFrom(table, stats) && SortedFrom(other, stats) && Matching(table, query) != Matching(other, query)
  {
    var m := Matching(stats, query);
    var a, b :| 0 <= a < b < |m| && m[a].name == m[b].name && m[a] != m[b];
    assert m[a] in multiset(m) && m[b] in multiset(m);
    table := SortedExists(stats);
    MatchingOfRearranged(table, stats, query);
    var i := MatchIsSomewhere(table, query, m[a]);
    var j := MatchIsSomewhere(table, query, m[b]);
    other := SwapTies(table, i, j);
    DifferenceShows(table, other, query, i);
  }

  lemma DifferenceShows(table: seq<Stat>, other: seq<Stat>, query: string, i: nat)
    requires Names(other) == Names(table) && i < |table| == |other| && table[i] != other[i] && Matches(query, table[i].name)
    ensures Matching(table, query) != Matching(other, query)
  {
    assert forall k | 0 <= k < |table| :: Names(other)[k] == Names(table)[k];
    if Matching(table, query) == Matching(other, query) {
      MatchingDetermines(table, other, query, i);
    }
  }

  lemma MatchIsSomewhere(table: seq<Stat>, query: string, x: Stat) returns (i: nat)
    requires SortedBy(table, NameOf) && x in multiset(Matching(table, query))
    ensures i < |table| && table[i] == x && Matches(query, x.name)
  {
    MatchingStaysSorted(table, query);
    MatchingCounts(table, query, x);
    assert x in Matching(table, query);
    i :| 0 <= i < |table| && table[i] == x;
  }

  lemma ShowAllIsInjective(a: seq<Stat>, b: seq<Stat>)
    requires ShowAll(a) == ShowAll(b)
    ensures a == b
  {
    assert |a| == |ShowAll(a)| == |ShowAll(b)| == |b|;
    forall k | 0 <= k < |a| ensures a[k] == b[k] {
      assert ShowAll(a)[k] == Shown(a[k]) && ShowAll(b)[k] == Shown(b[k]);
    }
  }

  lemma AnswersDetermine(a: seq<Stat>, b: seq<Stat>, query: string)
    requires Answer(a, query) == Answer(b, query) && |Matching(a, query)| == |Matching(b, query)|
    ensures Matching(a, query) == Matching(b, query)
  {
    if Matching(a, query) != [] {
      ShowAllIsInjective(Matching(a, query), Matching(b, query));
    }
  }

  /** Whatever qsort does, both tables give the same lines to this argument. */
  ghost predicate AlwaysSameLines(p: seq<Stat>, f: seq<Stat>, query: string) {
    forall pruned, full | SortedFrom(pruned, p) && SortedFrom(full, f) :: Answer(pruned, query) == Answer(full, query)
  }

  lemma TiesDecide(p: seq<Stat>, f: seq<Stat>, query: string)
    requires Matching(p, query) == Matching(f, query)
    ensures AlwaysSameLines(p, f, query) <==> TiesAgree(Matching(f, query))
  {
    if TiesAgree(Matching(f, query)) {
      forall pruned, full | SortedFrom(pruned, p) && SortedFrom(full, f) ensures Answer(pruned, query) == Answer(full, query) {
        SameUpToTies(p, f, pruned, full, query);
        TiesOfRearranged(Matching(f, query), Matching(full, query));
      }
    } else {
      var table, other := TiesCanShow(p, query);
      var full := SortedExists(f);
      SameUpToTies(p, f, table, full, query);
      SameUpToTies(p, f, other, full, query);
      if Answer(table, query) == Answer(full, query) && Answer(other, query) == Answer(full, query) {
        AnswersDetermine(table, other, query);
      }
    }
  }

  lemma TiesOfRearranged(a: seq<Stat>, b: seq<Stat>)
    requires TiesAgree(a) && multiset(a) == multiset(b)
    ensures TiesAgree(b)
  {
    forall i, j | 0 <= i < j < |b| && b[i].name == b[j].name ensures b[i] == b[j] {
      assert b[i] in multiset(b) && b[j] in multiset(b);
      assert b[i] in a && b[j] in a;
    }
  }

  /** Pruning is sure to show the very same lines for an argument if and only if stats that match it
      under one name are equal. */
  lemma PruningIsInvisible(sections: seq<string>, supply: seq<seq<RawStat>>, flags: seq<bool>, all: seq<bool>, graphite: bool,
                           args: seq<string>, i: nat)
    requires Consistent(sections, supply) && |flags| == |all| == |sections|
    requires forall k | 0 <= k < |sections| :: all[k] && (flags[k] <==> Interesting(args, sections[k]))
    requires i < |args| && |args[i]| > 0
    ensures AlwaysSameLines(Gather(supply, flags, graphite), Gather(supply, all, graphite), args[i])
       <==> TiesAgree(Matching(Gather(supply, all, graphite), args[i]))
  {
    PruningKeepsMatches(sections, supply, flags, all, graphite, args[i]);
    TiesDecide(Gather(supply, flags, graphite), Gather(supply, all, graphite), args[i]);
  }

  /** All sections. */
  ghost function All(n: nat): seq<bool> {
    seq(n, _ => true)
  }

  /** Two file systems whose names are told apart by a blank and a dot only. */
  const LOOK_ALIKES := [RawStat(["fs", "a b", "size"], Number, 1), RawStat(["fs", "a.b", "size"], Number, 2)]

  lemma LookAlikesHaveOneName(x: Stat, y: Stat)
    requires x == Stat("fs.a_b.size", Number, 1) && y == Stat("fs.a_b.size", Number, 2)
    ensures StatsOf(LOOK_ALIKES, false) == [x, y]
  {
    DottedOfThree("fs", "a b", "size");
    DottedOfThree("fs", "a.b", "size");
    assert Sanitize("fs") == "fs" && Sanitize("a b") == "a_b" && Sanitize("a.b") == "a_b" && Sanitize("size") == "size";
    assert "fs" + "." + "a_b" + "." + "size" == "fs.a_b.size";
    StatsOfTwo(LOOK_ALIKES[0], LOOK_ALIKES[1]);
    assert [LOOK_ALIKES[0], LOOK_ALIKES[1]] == LOOK_ALIKES;
  }

  lemma StatsOfTwo(a: RawStat, b: RawStat)
    ensures StatsOf([a, b], false) == [Stat(Dotted(a.parts), a.kind, a.value), Stat(Dotted(b.parts), b.kind, b.value)]
  {
    assert [a, b][..1] == [a] && [a][..0] == [];
    assert StatsOf([a], false) == [Stat(Dotted(a.parts), a.kind, a.value)];
  }

  lemma TwoOrders(x: Stat, y: Stat, query: string)
    requires x != y && x.name == y.name && Matches(query, x.name)
    ensures SortedFrom([x, y], [x, y]) && SortedFrom([y, x], [x, y])
    ensures Answer([x, y], query) != Answer([y, x], query)
  {
    var p, f := [x, y], [y, x];
    StrcmpZero(x.name, y.name);
    MatchesAreOneBlock(p, query, 0, 2);
    MatchesAreOneBlock(f, query, 0, 2);
    if Answer(p, query) == Answer(f, query) {
      AnswersDetermine(p, f, query);
    }
  }

  /** They get one name, and their lines may come in either order: asked for "fs.", the chosen sections
      and all sections can show different lines. */
  lemma LookAlikesShow(sections: seq<string>, supply: seq<seq<RawStat>>, flags: seq<bool>)
    requires sections == ["fs."] && supply == [LOOK_ALIKES] && flags == [true]
    ensures Consistent(sections, supply) && Interesting(["fs."], sections[0])
    ensures !AlwaysSameLines(Gather(supply, flags, false), Gather(supply, All(1), false), "fs.")
  {
    LookAlikesBelong(sections, supply);
    var x, y := Stat("fs.a_b.size", Number, 1), Stat("fs.a_b.size", Number, 2);
    LookAlikesHaveOneName(x, y);
    GatherOne(LOOK_ALIKES);
    assert flags == All(1);
    TwoOrders(x, y, "fs.");
  }

  lemma LookAlikesBelong(sections: seq<string>, supply: seq<seq<RawStat>>)
    requires sections == ["fs."] && supply == [LOOK_ALIKES]
    ensures Consistent(sections, supply) && Interesting(["fs."], sections[0])
  {
    assert ["fs."][0] == "fs.";
    assert "fs."[..2] == "fs";
    assert |LOOK_ALIKES| == 2;
  }

  lemma GatherOne(raws: seq<RawStat>)
    ensures Gather([raws], All(1), false) == StatsOf(raws, false)
  {
    assert [raws][..0] == [];
  }

  lemma DottedOfThree(a: string, b: string, c: string)
    ensures Dotted([a, b, c]) == Sanitize(a) + "." + Sanitize(b) + "." + Sanitize(c)
  {
    var three, two := [a, b, c], [a, b];
    assert three[..2] == two && two[..1] == [a];
    assert Dotted(two) == Sanitize(a) + "." + Sanitize(b);
  }

  // ---- the whole query -----------------------------------------------------------------------------

  /** What print_stats makes of a table. */
  ghost function Output(table: seq<Stat>, args: seq<string>): seq<Line> {
    if args == [] then ShowAll(table) else Answers(table, args)
  }

  /** The lines that these stats can give, depending on how qsort breaks ties. */
  ghost predicate CanPrint(stats: seq<Stat>, args: seq<string>, lines: seq<Line>) {
    exists table :: SortedFrom(table, stats) && lines == Output(table, args)
  }

  ghost function Negated(flags: seq<bool>): seq<bool> {
    seq(|flags|, i requires 0 <= i < |flags| => !flags[i])
  }

  /** The stats of all sections are those of the chosen ones and of the others. */
  lemma {:induction false} GatherSplits(supply: seq<seq<RawStat>>, flags: seq<bool>, graphite: bool)
    requires |flags| == |supply|
    ensures multiset(Gather(supply, All(|supply|), graphite))
         == multiset(Gather(supply, flags, graphite) + Gather(supply, Negated(flags), graphite))
  {
    if |supply| > 0 {
      var n := |supply| - 1;
      GatherSplits(supply[..n], flags[..n], graphite);
      assert All(|supply|)[..n] == All(n) && Negated(flags)[..n] == Negated(flags[..n]);
    }
  }

  /** The other sections match nothing that was asked for. */
  lemma {:induction false} OthersDoNotMatch(sections: seq<string>, supply: seq<seq<RawStat>>, flags: seq<bool>, graphite: bool, query: string)
    requires Consistent(sections, supply) && |flags| == |sections| && |query| > 0
    requires forall k | 0 <= k < |sections| :: sections[k] <= query ==> flags[k]
    ensures Matching(Gather(supply, Negated(flags), graphite), query) == []
    decreases |sections|
  {
    if |sections| > 0 {
      var n := |sections| - 1;
      ConsistentPrefix(sections, supply, n);
      OthersDoNotMatch(sections[..n], supply[..n], flags[..n], graphite, query);
      assert Negated(flags)[..n] == Negated(flags[..n]);
      if !flags[n] {
        OtherSectionsDoNotMatch(supply[n], sections[n], query, graphite);
        MatchingConcat(Gather(supply[..n], Negated(flags[..n]), graphite), StatsOf(supply[n], graphite), query);
      }
    }
  }

  /** No argument matches any of these stats. */
  ghost predicate Irrelevant(stats: seq<Stat>, args: seq<string>) {
    forall i | 0 <= i < |args| :: Matching(stats, args[i]) == []
  }

  lemma {:induction false} IrrelevantMeans(stats: seq<Stat>, query: string, x: Stat)
    requires Matching(stats, query) == [] && x in stats
    ensures !Matches(query, x.name)
  {
    MatchingCounts(stats, query, x);
    assert x in multiset(stats);
  }

  /** A table answers alike with and without stats that nobody asked for. */
  ghost predicate AnswersAlike(a: seq<Stat>, b: seq<Stat>, args: seq<string>) {
    forall i | 0 <= i < |args| :: Matching(a, args[i]) == Matching(b, args[i])
  }

  /** Stats that nobody asked for can be sorted into a table without changing an answer. */
  lemma {:induction false} CanAdd(table: seq<Stat>, rest: seq<Stat>, args: seq<string>) returns (full: seq<Stat>)
    requires SortedBy(table, NameOf) && Irrelevant(rest, args)
    ensures SortedFrom(full, table + rest) && AnswersAlike(full, table, args)
  {
    if |rest| == 0 {
      full := table;
      assert table + rest == table;
    } else {
      var n := |rest| - 1;
      IrrelevantPrefix(rest, args, n);
      var before := CanAdd(table, rest[..n], args);
      full := OneMore(before, rest[n]);
      assert table + rest == table + rest[..n] + [rest[n]];
      forall i | 0 <= i < |args| ensures Matching(full, args[i]) == Matching(table, args[i]) {
        IrrelevantMeans(rest, args[i], rest[n]);
      }
    }
  }

  lemma IrrelevantPrefix(rest: seq<Stat>, args: seq<string>, n: nat)
    requires Irrelevant(rest, args) && n <= |rest|
    ensures Irrelevant(rest[..n], args)
  {
    forall i | 0 <= i < |args| ensures Matching(rest[..n], args[i]) == [] {
      assert rest == rest[..n] + rest[n..];
      MatchingConcat(rest[..n], rest[n..], args[i]);
    }
  }

  /** And they can be struck out of it. */
  lemma {:induction false} CanRemove(full: seq<Stat>, stats: seq<Stat>, rest: seq<Stat>, args: seq<string>) returns (table: seq<Stat>)
    requires SortedFrom(full, stats + rest) && Irrelevant(rest, args)
    ensures SortedFrom(table, stats) && AnswersAlike(full, table, args)
  {
    if |rest| == 0 {
      table := full;
      assert stats + rest == stats;
    } else {
      var n := |rest| - 1;
      assert stats + rest == stats + rest[..n] + [rest[n]];
      assert rest[n] in multiset(full);
      var j :| 0 <= j < |full| && full[j] == rest[n];
      var less := full[..j] + full[j + 1..];
      RemoveOne(full, j);
      IrrelevantPrefix(rest, args, n);
      forall i | 0 <= i < |args| ensures !Matches(args[i], full[j].name) {
        IrrelevantMeans(rest, args[i], rest[n]);
      }
      OneLess(full, j, args);
      table := CanRemove(less, stats, rest[..n], args);
    }
  }

  lemma OneLess(full: seq<Stat>, j: nat, args: seq<string>)
    requires SortedBy(full, NameOf) && j < |full| && forall i | 0 <= i < |args| :: !Matches(args[i], full[j].name)
    ensures SortedBy(full[..j] + full[j + 1..], NameOf) && AnswersAlike(full, full[..j] + full[j + 1..], args)
  {
    RemovalKeepsSorted(full, j);
    forall i | 0 <= i < |args| ensures Matching(full, args[i]) == Matching(full[..j] + full[j + 1..], args[i]) {
      MatchingWithout(full[..j], full[j], full[j + 1..], args[i]);
      assert full == full[..j] + [full[j]] + full[j + 1..];
    }
  }

  lemma RemovalKeepsSorted(full: seq<Stat>, j: nat)
    requires SortedBy(full, NameOf) && j < |full|
    ensures SortedBy(full[..j] + full[j + 1..], NameOf)
  {
    var less := full[..j] + full[j + 1..];
    forall k, l | 0 <= k < l < |less| ensures Strcmp(NameOf(less[k]), NameOf(less[l])) <= 0 {
      var k', l' := if k < j then k else k + 1, if l < j then l else l + 1;
      assert less[k] == full[k'] && less[l] == full[l'];
      assert Strcmp(NameOf(full[k']), NameOf(full[l'])) <= 0;
    }
  }

  lemma {:induction false} AlikeAnswers(a: seq<Stat>, b: seq<Stat>, args: seq<string>)
    requires AnswersAlike(a, b, args)
    ensures Answers(a, args) == Answers(b, args)
  {
    if |args| > 0 {
      var n := |args| - 1;
      forall i | 0 <= i < n ensures Matching(a, args[..n][i]) == Matching(b, args[..n][i]) {
        assert args[..n][i] == args[i];
      }
      AlikeAnswers(a, b, args[..n]);
    }
  }

  /** Pruning changes nothing that could be seen: for all arguments together, the chosen sections can
      print exactly the outputs that all sections can print. */
  lemma PruningKeepsOutputs(sections: seq<string>, supply: seq<seq<RawStat>>, flags: seq<bool>, graphite: bool,
                            args: seq<string>, lines: seq<Line>)
    requires Consistent(sections, supply) && |flags| == |sections|
    requires forall k | 0 <= k < |sections| :: flags[k] <==> Interesting(args, sections[k])
    requires forall i | 0 <= i < |args| :: |args[i]| > 0
    ensures CanPrint(Gather(supply, flags, graphite), args, lines)
       <==> CanPrint(Gather(supply, All(|sections|), graphite), args, lines)
  {
    if args == [] {
      assert flags == All(|sections|);
    } else {
      var chosen, rest := Gather(supply, flags, graphite), Gather(supply, Negated(flags), graphite);
      GatherSplits(supply, flags, graphite);
      forall i | 0 <= i < |args| ensures Matching(rest, args[i]) == [] {
        OthersDoNotMatch(sections, supply, flags, graphite, args[i]);
      }
      if CanPrint(chosen, args, lines) {
        var table :| SortedFrom(table, chosen) && lines == Output(table, args);
        var full := CanAdd(table, rest, args);
        AlikeAnswers(full, table, args);
        assert SortedFrom(full, Gather(supply, All(|sections|), graphite));
      }
      if CanPrint(Gather(supply, All(|sections|), graphite), args, lines) {
        var full :| SortedFrom(full, Gather(supply, All(|sections|), graphite)) && lines == Output(full, args);
        var table := CanRemove(full, chosen, rest, args);
        AlikeAnswers(full, table, args);
        assert SortedFrom(table, chosen);
      }
    }
  }

  /** A run of the statgrab command: choose the sections, collect and sort their stats, and answer the
      arguments. The lines are those that the stats of all sections give, sorted as `full`: answered
      argument by argument, or, without arguments, all of them. */
  method Query(sections: seq<string>, supply: seq<seq<RawStat>>, graphite: bool, args: seq<string>)
    returns (lines: seq<Line>, ghost full: seq<Stat>, ghost cuts: seq<nat>, ghost at: seq<seq<nat>>)
    requires Consistent(sections, supply)
    requires forall j, k | 0 <= j < k < |sections| :: sections[j] != sections[k]
    requires forall i | 0 <= i < |args| :: |args[i]| > 0
    ensures CanPrint(Gather(supply, All(|sections|), graphite), args, lines)
    ensures SortedFrom(full, Gather(supply, All(|sections|), graphite))
    ensures args == [] ==> |lines| == |full| && forall i | 0 <= i < |full| :: lines[i] == Shown(full[i])
    ensures args != [] ==> InTurn(full, args, lines, cuts, at)
  {
    var flags := SelectInteresting(sections, args);
    forall k, i | 0 <= k < |supply| && 0 <= i < |supply[k]| ensures |supply[k][i].parts| > 0 {
      assert BelongsTo(supply[k][i], sections[k]);
    }
    var table := GetStats(supply, flags, graphite);
    lines, cuts, at := PrintStats(table, args);
    assert SortedFrom(table, Gather(supply, flags, graphite)) && lines == Output(table, args);
    PruningKeepsOutputs(sections, supply, flags, graphite, args, lines);
    full :| SortedFrom(full, Gather(supply, All(|sections|), graphite)) && lines == Output(full, args);
    cuts, at := AnswersInTurn(full, args);
  }

  /** What the populate functions hand over, section by section of the toplevels table. */
  ghost predicate InSections(supply: seq<seq<RawStat>>) {
    && |supply| == |SECTIONS|
    && forall k, i | 0 <= k < |SECTIONS| && 0 <= i < |supply[k]| :: |SECTIONS[k]| > 0 && BelongsTo(supply[k][i], SECTIONS[k])
  }

  /** The command with its own table of sections */
  method QueryToplevels(supply: seq<seq<RawStat>>, graphite: bool, args: seq<string>)
    returns (lines: seq<Line>, ghost full: seq<Stat>, ghost cuts: seq<nat>, ghost at: seq<seq<nat>>)
    requires InSections(supply) && forall i | 0 <= i < |args| :: |args[i]| > 0
    ensures CanPrint(Gather(supply, All(|SECTIONS|), graphite), args, lines)
    ensures SortedFrom(full, Gather(supply, All(|SECTIONS|), graphite))
    ensures args == [] ==> |lines| == |full| && forall i | 0 <= i < |full| :: lines[i] == Shown(full[i])
    ensures args != [] ==> InTurn(full, args, lines, cuts, at)
  {
    SectionsAreSectionNames();
    lines, full, cuts, at := Query(SECTIONS, supply, graphite, args);
  }
}
