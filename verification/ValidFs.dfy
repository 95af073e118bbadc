/** The set of valid file system types: the sorted list of src/libstatgrab/disk_stats.c and the -F
    argument of src/statgrab/statgrab.c that edits it. Strings live in an explicit memory, so that
    reading a freed string or freeing one twice would be a failed precondition. */
module ValidFs {
  import opened CString
  import opened Options
  import opened Rearrange

  // ---- splitting the list ----------------------------------------------------------------------

  predicate IsSpace(c: char) {
    c == ' ' || ('\t' <= c <= '\r')
  }

  predicate IsSeparator(c: char) {
    IsSpace(c) || c == ','
  }

  /** The first index at or after i that is a separator, or the end. */
  function SkipWord(s: string, i: nat): (j: nat)
    requires i <= |s|
    ensures i <= j <= |s| && (forall k | i <= k < j :: !IsSeparator(s[k])) && (j < |s| ==> IsSeparator(s[j]))
    decreases |s| - i
  {
    if i < |s| && !IsSeparator(s[i]) then SkipWord(s, i + 1) else i
  }

  function SkipSeparators(s: string, i: nat): (j: nat)
    requires i <= |s|
    ensures i <= j <= |s| && (forall k | i <= k < j :: IsSeparator(s[k])) && (j < |s| ==> !IsSeparator(s[j]))
    decreases |s| - i
  {
    if i < |s| && IsSeparator(s[i]) then SkipSeparators(s, i + 1) else i
  }

  function SkipSpaces(s: string, i: nat): (j: nat)
    requires i <= |s|
    ensures i <= j <= |s| && (forall k | i <= k < j :: IsSpace(s[k])) && (j < |s| ==> !IsSpace(s[j]))
    decreases |s| - i
  {
    if i < |s| && IsSpace(s[i]) then SkipSpaces(s, i + 1) else i
  }

  /** The tokens split_list finds from position i on. */
  function Tokens(s: string, i: nat): seq<string>
    requires i <= |s|
    decreases |s| - i
  {
    if i == |s| then []
    else
      var j := SkipWord(s, i);
      var k := SkipSeparators(s, j);
      if k == i then [] else [s[i..j]] + Tokens(s, k)
  }

  lemma NextToken(s: string, i: nat, all: seq<string>, n: nat)
    requires i < |s| && n <= |all| && all[n..] == Tokens(s, i)
    ensures var j := SkipWord(s, i);
            var k := SkipSeparators(s, j);
            i < k && n < |all| && all[n] == s[i..j] && all[n + 1..] == Tokens(s, k)
  {}

  /** A word of the list, in the reader's sense: a longest non-empty stretch without separators. */
  ghost predicate IsWord(s: string, i: nat, j: nat) {
    && i < j <= |s|
    && (forall k | i <= k < j :: !IsSeparator(s[k]))
    && (i == 0 || IsSeparator(s[i - 1]))
    && (j == |s| || IsSeparator(s[j]))
  }

  ghost predicate HasWord(s: string, from: nat, w: string) {
    exists i, j | from <= i < j <= |s| :: IsWord(s, i, j) && s[i..j] == w
  }

  /** Where split_list stands between tokens: at a word or a separator, never inside a word. */
  ghost predicate Boundary(s: string, i: nat) {
    i <= |s| && (i == 0 || i == |s| || IsSeparator(s[i - 1]))
  }

  lemma WordStarts(s: string, i: nat, a: nat, b: nat)
    requires Boundary(s, i) && i < |s| && i <= a && IsWord(s, a, b)
    ensures var j := SkipWord(s, i); (a == i && b == j) || SkipSeparators(s, j) <= a
  {
    var j := SkipWord(s, i);
    var k := SkipSeparators(s, j);
    assert !IsSeparator(s[a]);
    assert a < k ==> a < j;
  }

  /** The non-empty tokens are exactly the words of the list; an empty token appears exactly when the
      list begins with a separator. */
  lemma {:induction false} TokensAreWords(s: string, i: nat, w: string)
    requires Boundary(s, i)
    ensures w != "" ==> (w in Tokens(s, i) <==> HasWord(s, i, w))
    ensures "" in Tokens(s, i) <==> i < |s| && IsSeparator(s[i])
    decreases |s| - i
  {
    if i < |s| {
      var j := SkipWord(s, i);
      var k := SkipSeparators(s, j);
      assert j == i ==> IsSeparator(s[i]);
      assert k > i;
      TokensAreWords(s, k, w);
      if w != "" {
        if w in Tokens(s, i) && s[i..j] == w {
          assert IsWord(s, i, j);
        }
        if HasWord(s, i, w) {
          var a, b :| i <= a < b <= |s| && IsWord(s, a, b) && s[a..b] == w;
          WordStarts(s, i, a, b);
          if k <= a {
            assert HasWord(s, k, w);
          }
        }
      }
    }
  }

  /** The argument begins with '!', white space aside. */
  predicate TakesAway(arg: string) {
    var p := SkipSpaces(arg, 0);
    p < |arg| && arg[p] == '!'
  }

  /** What follows. */
  function ListOf(arg: string): string {
    var p := SkipSpaces(arg, 0);
    if TakesAway(arg) then arg[SkipSpaces(arg, p + 1)..] else arg[p..]
  }

  // ---- in the reader's terms ---------------------------------------------------------------------

  /** The same file system type: character by character the same, or capital and small form of one of the
      letters A to Z. */
  ghost predicate SameType(a: string, b: string) {
    && |a| == |b|
    && forall i | 0 <= i < |a| ::
         || a[i] == b[i]
         || ('A' <= a[i] <= 'Z' && b[i] as int == a[i] as int + 32)
         || ('A' <= b[i] <= 'Z' && a[i] as int == b[i] as int + 32)
  }

  lemma SameLetter(a: char, b: char)
    ensures ToLower(a) == ToLower(b) <==>
              a == b || ('A' <= a <= 'Z' && b as int == a as int + 32) || ('A' <= b <= 'Z' && a as int == b as int + 32)
  {}

  lemma SameTypeIsLower(a: string, b: string)
    ensures SameType(a, b) <==> Lower(a) == Lower(b)
  {
    assert |Lower(a)| == |a| && |Lower(b)| == |b|;
    forall i | 0 <= i < |a| && i < |b| ensures Lower(a)[i] == ToLower(a[i]) && Lower(b)[i] == ToLower(b[i]) {
      SameLetter(a[i], b[i]);
    }
    if Lower(a) == Lower(b) {
      forall i | 0 <= i < |a|
        ensures a[i] == b[i] || ('A' <= a[i] <= 'Z' && b[i] as int == a[i] as int + 32) || ('A' <= b[i] <= 'Z' && a[i] as int == b[i] as int + 32)
      {
        assert Lower(a)[i] == Lower(b)[i];
        SameLetter(a[i], b[i]);
      }
    }
    if SameType(a, b) {
      forall i | 0 <= i < |a| ensures Lower(a)[i] == Lower(b)[i] {
        SameLetter(a[i], b[i]);
      }
    }
  }

  /** Blank, tab, newline, vertical tab, form feed and carriage return. */
  ghost predicate IsBlank(c: char) {
    c in {' ', '\t', '\n', '\U{000b}', '\U{000c}', '\r'}
  }

  lemma BlankIsSpace(c: char)
    ensures IsBlank(c) <==> IsSpace(c)
  {}

  /** A longest stretch without blanks and commas. */
  ghost predicate IsStretch(s: string, a: nat, b: nat) {
    && a < b <= |s|
    && (forall k | a <= k < b :: !IsBlank(s[k]) && s[k] != ',')
    && (a == 0 || IsBlank(s[a - 1]) || s[a - 1] == ',')
    && (b == |s| || IsBlank(s[b]) || s[b] == ',')
  }

  /** Some such stretch is this type. */
  ghost predicate Names(s: string, t: string) {
    exists a: nat, b: nat :: IsStretch(s, a, b) && SameType(s[a..b], t)
  }

  lemma StretchIsWord(s: string, a: nat, b: nat)
    ensures IsStretch(s, a, b) <==> IsWord(s, a, b)
  {
    if a < b <= |s| {
      forall k | 0 <= k < |s| ensures IsSeparator(s[k]) <==> IsBlank(s[k]) || s[k] == ',' {
        BlankIsSpace(s[k]);
      }
    }
  }

  lemma NamesIsWord(s: string, t: string)
    ensures Names(s, t) <==> exists w :: Lower(w) == Lower(t) && HasWord(s, 0, w)
  {
    if Names(s, t) {
      var a: nat, b: nat :| IsStretch(s, a, b) && SameType(s[a..b], t);
      StretchIsWord(s, a, b);
      SameTypeIsLower(s[a..b], t);
      assert HasWord(s, 0, s[a..b]);
    }
    if exists w :: Lower(w) == Lower(t) && HasWord(s, 0, w) {
      var w :| Lower(w) == Lower(t) && HasWord(s, 0, w);
      var a, b :| 0 <= a < b <= |s| && IsWord(s, a, b) && s[a..b] == w;
      StretchIsWord(s, a, b);
      SameTypeIsLower(w, t);
    }
  }

  /** From position p on, index q is the first that is no blank, or the end. */
  ghost predicate FirstAfter(s: string, p: nat, q: nat) {
    p <= q <= |s| && (forall k | p <= k < q :: IsBlank(s[k])) && (q < |s| ==> !IsBlank(s[q]))
  }

  lemma SkipIsFirstAfter(s: string, p: nat)
    requires p <= |s|
    ensures FirstAfter(s, p, SkipSpaces(s, p))
  {
    forall k | 0 <= k < |s| ensures IsBlank(s[k]) <==> IsSpace(s[k]) {
      BlankIsSpace(s[k]);
    }
  }

  // ---- the list in memory ------------------------------------------------------------------------

  ghost predicate AllIn(list: seq<nat>, mem: map<nat, string>) {
    forall i | 0 <= i < |list| :: list[i] in mem
  }

  /** What cmp_valid_fs and fsnmcmp look at. */
  function FoldedAt(mem: map<nat, string>): nat -> string {
    a => if a in mem then Lower(mem[a]) else ""
  }

  /** Some string of the list equals t, case aside. */
  ghost predicate Lists(list: seq<nat>, mem: map<nat, string>, t: string) {
    exists i | 0 <= i < |list| && list[i] in mem :: Lower(mem[list[i]]) == Lower(t)
  }

  ghost predicate ListsToken(tokens: seq<string>, t: string) {
    exists i | 0 <= i < |tokens| :: Lower(tokens[i]) == Lower(t)
  }

  lemma RearrangedLists(a: seq<nat>, b: seq<nat>, mem: map<nat, string>, t: string)
    requires multiset(a) == multiset(b)
    ensures Lists(a, mem, t) <==> Lists(b, mem, t)
  {
    SameElements(a, b);
    if Lists(a, mem, t) {
      var i :| 0 <= i < |a| && a[i] in mem && Lower(mem[a[i]]) == Lower(t);
      assert a[i] in Elements(b);
    }
    if Lists(b, mem, t) {
      var i :| 0 <= i < |b| && b[i] in mem && Lower(mem[b[i]]) == Lower(t);
      assert b[i] in Elements(a);
    }
  }

  /** `mem` is `before` and new strings for the list, at addresses from `from` on. */
  ghost predicate Extends(before: map<nat, string>, mem: map<nat, string>, list: seq<nat>, from: nat, next: nat) {
    && Distinct(list) && (forall i | 0 <= i < |list| :: from <= list[i] < next)
    && mem.Keys == before.Keys + Elements(list)
    && forall a | a in before :: a < from && mem[a] == before[a]
  }

  ghost function StringsOf(mem: map<nat, string>, list: seq<nat>): seq<string>
    requires AllIn(list, mem)
  {
    seq(|list|, i requires 0 <= i < |list| => mem[list[i]])
  }

  /** The list points to these strings. */
  ghost predicate Reflects(mem: map<nat, string>, list: seq<nat>, strings: seq<string>) {
    |list| == |strings| && forall i | 0 <= i < |list| :: list[i] in mem && mem[list[i]] == strings[i]
  }

  lemma ExtendsByOne(before: map<nat, string>, mem: map<nat, string>, list: seq<nat>, from: nat, next: nat, s: string)
    requires Extends(before, mem, list, from, next) && from <= next
    ensures Extends(before, mem[next := s], list + [next], from, next + 1)
    ensures Extends(before, mem[next := s], [next] + list, from, next + 1)
  {
    ElementsAppend(list, next);
    assert mem[next := s].Keys == mem.Keys + {next};
  }

  lemma ReflectsOneMore(mem: map<nat, string>, list: seq<nat>, strings: seq<string>, next: nat, s: string)
    requires Reflects(mem, list, strings) && forall a | a in mem :: a < next
    ensures Reflects(mem[next := s], list + [next], strings + [s])
    ensures Reflects(mem[next := s], [next] + list, [s] + strings)
  {}

  /** valid_file_systems, and the memory that holds all strings. */
  class FsTypes {
    var mem: map<nat, string>
    var next: nat
    var valid: Option<seq<nat>>

    /** The list is sorted without regard to case, and its strings are all there is in memory. */
    ghost predicate Valid()
      reads this
    {
      && (forall a | a in mem :: a < next)
      && match valid
         case None => mem == map[]
         case Some(list) => Distinct(list) && mem.Keys == Elements(list) && SortedBy(list, FoldedAt(mem))
    }

    /** What is_valid_fs_type is to answer. */
    ghost predicate IsType(t: string)
      reads this
    {
      valid.Some? && Lists(valid.value, mem, t)
    }

    constructor ()
      ensures Valid() && valid == None
    {
      mem, next, valid := map[], 0, None;
    }

    /** is_valid_fs_type: bsearch in the sorted list */
    method IsValidType(t: string) returns (b: bool)
      requires Valid()
      ensures b <==> IsType(t)
      ensures b <==> valid.Some? && exists k | 0 <= k < |valid.value| :: valid.value[k] in mem && SameType(mem[valid.value[k]], t)
    {
      forall w ensures SameType(w, t) <==> Lower(w) == Lower(t) {
        SameTypeIsLower(w, t);
      }
      if valid.None? {
        return false;
      }
      b := Search(valid.value, t);
    }

    /** bsearch with cmp_valid_fs or fsnmcmp */
    method Search(list: seq<nat>, t: string) returns (b: bool)
      requires AllIn(list, mem) && SortedBy(list, FoldedAt(mem))
      ensures b <==> Lists(list, mem, t)
    {
      var folded := FoldedAt(mem);
      ExactBrackets(list, folded, Lower(t));
      var at := BSearch(list, a => Strcmp(Lower(t), folded(a)));
      forall i | 0 <= i < |list| ensures Strcmp(Lower(t), folded(list[i])) == 0 <==> Lower(mem[list[i]]) == Lower(t) {
        StrcmpZero(Lower(t), folded(list[i]));
      }
      b := at != -1;
    }

    method Alloc(s: string) returns (a: nat)
      requires forall k | k in mem :: k < next
      modifies this`mem, this`next
      ensures a == old(next) && next == a + 1 && a !in old(mem) && mem == old(mem)[a := s]
      ensures forall k | k in mem :: k < next
    {
      a := next;
      mem := mem[a := s];
      next := next + 1;
    }

    /** free() on every string of a list */
    method FreeAll(list: seq<nat>)
      requires Distinct(list) && AllIn(list, mem)
      modifies this`mem
      ensures mem == old(mem) - Elements(list)
    {
      var i := 0;
      while i < |list|
        invariant 0 <= i <= |list|
        invariant mem == old(mem) - Elements(list[..i])
      {
        assert Elements(list[..i + 1]) == Elements(list[..i]) + {list[i]};
        assert list[i] in mem;
        mem := mem - {list[i]};
        i := i + 1;
      }
      assert list[..i] == list;
    }

    /** The list of another program part, while further strings are in memory. */
    ghost predicate Sane()
      reads this
    {
      && (forall a | a in mem :: a < next)
      && (valid.Some? ==> Distinct(valid.value) && AllIn(valid.value, mem))
    }

    /** split_list: one new string per token */
    method SplitList(s: string) returns (list: seq<nat>)
      requires Sane()
      modifies this`mem, this`next
      ensures Sane() && Distinct(list) && Elements(list) !! old(mem).Keys
      ensures mem.Keys == old(mem).Keys + Elements(list) && forall a | a in old(mem) :: mem[a] == old(mem)[a]
      ensures Reflects(mem, list, Tokens(s, 0))
    {
      list := [];
      ghost var all := Tokens(s, 0);
      var l := 0;
      while l < |s|
        invariant 0 <= l <= |s| && next >= old(next) && (forall a | a in mem :: a < next)
        invariant |list| <= |all| && all[|list|..] == Tokens(s, l)
        invariant Extends(old(mem), mem, list, old(next), next) && Reflects(mem, list, all[..|list|])
        decreases |s| - l
      {
        NextToken(s, l, all, |list|);
        var start := l;
        l := SkipWord(s, l);
        assert all[..|list| + 1] == all[..|list|] + [s[start..l]];
        list := PushCopy(list, s[start..l], old(mem), old(next), all[..|list|]);
        l := SkipSeparators(s, l);
      }
      assert all[..|list|] == all;
    }

    /** push_item of a strndup */
    method PushCopy(list: seq<nat>, s: string, ghost before: map<nat, string>, ghost from: nat, ghost strings: seq<string>)
      returns (longer: seq<nat>)
      requires (forall a | a in mem :: a < next) && from <= next
      requires Extends(before, mem, list, from, next) && Reflects(mem, list, strings)
      modifies this`mem, this`next
      ensures (forall a | a in mem :: a < next) && from <= next
      ensures Extends(before, mem, longer, from, next) && Reflects(mem, longer, strings + [s])
    {
      ExtendsByOne(before, mem, list, from, next, s);
      ReflectsOneMore(mem, list, strings, next, s);
      var a := Alloc(s);
      longer := list + [a];
    }

    /** sg_set_valid_filesystems: copy the strings, last one first; sort; and only then free the old
        ones, which the caller's list may still point to. */
    method SetValid(list: seq<nat>)
      requires Sane() && AllIn(list, mem)
      modifies this
      ensures Sane() && (valid.Some? ==> SortedBy(valid.value, FoldedAt(mem)))
      ensures mem.Keys == old(mem).Keys - old(Held()) + Held() && Held() !! old(mem).Keys
      ensures forall a | a in old(mem) && a !in old(Held()) :: mem[a] == old(mem)[a]
      ensures valid.None? <==> list == []
      ensures forall t :: IsType(t) <==> old(Lists(list, mem, t))
    {
      var previous := valid;
      ghost var old_ := Held();
      var fresh_: Option<seq<nat>> := None;
      if |list| > 0 {
        var sorted := SortedCopies(list);
        fresh_ := Some(sorted);
      }
      valid := fresh_;
      ghost var full := mem;
      if previous.Some? {
        FreeAll(previous.value);
      }
      assert mem == full - old_;
      if valid.Some? {
        FreeingOthers(valid.value, full, mem);
      }
    }

    /** The copies of a list, in order. */
    method SortedCopies(list: seq<nat>) returns (sorted: seq<nat>)
      requires Sane() && AllIn(list, mem)
      modifies this`mem, this`next
      ensures Sane() && Distinct(sorted) && Elements(sorted) !! old(mem).Keys && AllIn(sorted, mem)
      ensures mem.Keys == old(mem).Keys + Elements(sorted) && forall a | a in old(mem) :: mem[a] == old(mem)[a]
      ensures SortedBy(sorted, FoldedAt(mem))
      ensures forall t :: Lists(sorted, mem, t) <==> old(Lists(list, mem, t))
    {
      ghost var before := mem;
      var copies := CopyAll(list);
      sorted := QSort(copies, FoldedAt(mem));
      SameElements(copies, sorted);
      RearrangedStaysDistinct(copies, sorted);
      forall t ensures Lists(sorted, mem, t) <==> Lists(list, before, t) {
        RearrangedLists(copies, sorted, mem, t);
        CopiedLists(list, before, copies, mem, t);
      }
      forall i | 0 <= i < |sorted| ensures sorted[i] in mem {
        assert sorted[i] in Elements(sorted);
      }
    }

    /** The strings the list owns. */
    ghost function Held(): set<nat>
      reads this
    {
      if valid.Some? then Elements(valid.value) else {}
    }

    method CopyAll(list: seq<nat>) returns (copies: seq<nat>)
      requires Sane() && AllIn(list, mem)
      modifies this`mem, this`next
      ensures Sane() && Distinct(copies) && Elements(copies) !! old(mem).Keys
      ensures mem.Keys == old(mem).Keys + Elements(copies) && forall a | a in old(mem) :: mem[a] == old(mem)[a]
      ensures Reflects(mem, copies, StringsOf(old(mem), list))
    {
      copies := [];
      ghost var all := StringsOf(mem, list);
      var tmp := |list|;
      while tmp > 0
        invariant 0 <= tmp <= |list| && next >= old(next) && (forall a | a in mem :: a < next) && |copies| == |list| - tmp
        invariant Extends(old(mem), mem, copies, old(next), next)
        invariant Reflects(mem, copies, all[tmp..])
      {
        tmp := tmp - 1;
        assert all[tmp..] == [mem[list[tmp]]] + all[tmp + 1..];
        ReflectsOneMore(mem, copies, all[tmp + 1..], next, mem[list[tmp]]);
        ExtendsByOne(old(mem), mem, copies, old(next), next, mem[list[tmp]]);
        var a := Alloc(mem[list[tmp]]);
        copies := [a] + copies;
      }
    }

    /** The valid types are the words of this list, case aside. */
    ghost predicate TypesAre(words: string)
      reads this
    {
      forall t :: IsType(t) <==> ListsToken(Tokens(words, 0), t)
    }

    /** The valid types are those that were valid before and are no words of this list, case aside. */
    twostate predicate TypesAreLess(words: string)
      reads this
    {
      forall t :: IsType(t) <==> old(IsType(t)) && !ListsToken(Tokens(words, 0), t)
    }

    /** set_valid_filesystems, the -F argument. `died` is true where the program exits because there
        is no list to take types away from. The first character that is no blank is at p; if that is an
        exclamation mark, the first one after it is at q. */
    method Choose(arg: string) returns (died: bool, ghost p: nat, ghost q: nat)
      requires Valid()
      modifies this
      ensures died <==> TakesAway(arg) && old(valid).None?
      ensures !died ==> Valid() && if TakesAway(arg) then TypesAreLess(ListOf(arg)) else TypesAre(ListOf(arg))
      ensures FirstAfter(arg, 0, p) && (p < |arg| && arg[p] == '!' ==> FirstAfter(arg, p + 1, q))
      ensures died <==> p < |arg| && arg[p] == '!' && old(valid).None?
      ensures !died && p < |arg| && arg[p] == '!' ==> forall t | t != "" :: IsType(t) <==> old(IsType(t)) && !Names(arg[q..], t)
      ensures !died && !(p < |arg| && arg[p] == '!') ==> forall t | t != "" :: IsType(t) <==> Names(arg[p..], t)
    {
      var words := ListOf(arg);
      p := SkipSpaces(arg, 0);
      q := if TakesAway(arg) then SkipSpaces(arg, p + 1) else p;
      SkipIsFirstAfter(arg, 0);
      if TakesAway(arg) {
        SkipIsFirstAfter(arg, p + 1);
      }
      ListedIsNamed(words);
      died := Apply(TakesAway(arg), words);
    }

    method Apply(less: bool, words: string) returns (died: bool)
      requires Valid()
      modifies this
      ensures died <==> less && old(valid).None?
      ensures !died ==> Valid() && if less then TypesAreLess(words) else TypesAre(words)
    {
      if less {
        if valid.None? {
          return true;
        }
        Remove(words);
      } else {
        Replace(words);
      }
      died := false;
    }

    /** The branch without '!': the tokens are the new list. */
    method Replace(words: string)
      requires Valid()
      modifies this
      ensures Valid() && TypesAre(words)
    {
      var given := SplitList(words);
      forall t ensures Lists(given, mem, t) <==> ListsToken(Tokens(words, 0), t) {
        TokensInMemory(given, mem, Tokens(words, 0), t);
      }
      SetValid(given);
      FreeTokens(given);
    }

    /** The branch with '!': the old types that no token names are the new list. */
    method Remove(words: string)
      requires Valid() && valid.Some?
      modifies this
      ensures Valid() && TypesAreLess(words)
    {
      var given := SplitList(words);
      var sorted := QSort(given, FoldedAt(mem));
      forall t ensures Lists(sorted, mem, t) <==> ListsToken(Tokens(words, 0), t) {
        RearrangedLists(given, sorted, mem, t);
        TokensInMemory(given, mem, Tokens(words, 0), t);
      }
      SameElements(given, sorted);
      assert AllIn(sorted, mem) by {
        forall i | 0 <= i < |sorted| ensures sorted[i] in mem { assert sorted[i] in Elements(sorted); }
      }
      var kept := KeepUnlisted(valid.value, sorted);
      SetValid(kept);
      FreeTokens(given);
    }

    /** The loop over the old list, with its bsearch among the given types */
    method KeepUnlisted(old_: seq<nat>, given: seq<nat>) returns (kept: seq<nat>)
      requires AllIn(old_, mem) && AllIn(given, mem) && SortedBy(given, FoldedAt(mem))
      ensures AllIn(kept, mem)
      ensures forall t :: Lists(kept, mem, t) <==> Lists(old_, mem, t) && !Lists(given, mem, t)
    {
      kept := [];
      var i := 0;
      while i < |old_|
        invariant 0 <= i <= |old_| && AllIn(kept, mem)
        invariant forall t :: Lists(kept, mem, t) <==> Lists(old_[..i], mem, t) && !Lists(given, mem, t)
      {
        var listed := Search(given, mem[old_[i]]);
        ghost var before := kept;
        if !listed {
          kept := kept + [old_[i]];
        }
        forall t ensures Lists(kept, mem, t) <==> Lists(old_[..i + 1], mem, t) && !Lists(given, mem, t) {
          ListsExtends(old_, mem, i, t);
          ListsSame(given, mem, mem[old_[i]], t);
          if !listed {
            ListsAppend(before, mem, old_[i], t);
          }
        }
        i := i + 1;
      }
      assert old_[..i] == old_;
    }

    /** The final loop: the token strings are freed, and the list owns all that is left. */
    method FreeTokens(given: seq<nat>)
      requires Sane() && Distinct(given) && AllIn(given, mem) && Elements(given) !! Held()
      requires mem.Keys == Held() + Elements(given)
      requires valid.Some? ==> SortedBy(valid.value, FoldedAt(mem))
      modifies this`mem
      ensures Valid() && forall t :: IsType(t) <==> old(IsType(t))
    {
      ghost var full := mem;
      FreeAll(given);
      if valid.Some? {
        FreeingOthers(valid.value, full, mem);
      }
    }
  }

  // ---- lists and the strings they point to -----------------------------------------------------

  lemma CopiedLists(list: seq<nat>, before: map<nat, string>, copies: seq<nat>, after: map<nat, string>, t: string)
    requires AllIn(list, before) && Reflects(after, copies, StringsOf(before, list))
    ensures Lists(copies, after, t) <==> Lists(list, before, t)
  {
    if Lists(copies, after, t) {
      var i :| 0 <= i < |copies| && copies[i] in after && Lower(after[copies[i]]) == Lower(t);
      assert list[i] in before;
    }
    if Lists(list, before, t) {
      var i :| 0 <= i < |list| && list[i] in before && Lower(before[list[i]]) == Lower(t);
      assert copies[i] in after;
    }
  }

  lemma TokensInMemory(list: seq<nat>, mem: map<nat, string>, tokens: seq<string>, t: string)
    requires Reflects(mem, list, tokens)
    ensures Lists(list, mem, t) <==> ListsToken(tokens, t)
  {}

  /** Freeing strings outside the list changes nothing about it. */
  lemma FreeingOthers(list: seq<nat>, before: map<nat, string>, after: map<nat, string>)
    requires forall i | 0 <= i < |list| :: list[i] in before && list[i] in after && after[list[i]] == before[list[i]]
    ensures SortedBy(list, FoldedAt(before)) ==> SortedBy(list, FoldedAt(after))
    ensures forall t :: Lists(list, before, t) <==> Lists(list, after, t)
  {}

  lemma ListsExtends(list: seq<nat>, mem: map<nat, string>, i: nat, t: string)
    requires i < |list| && list[i] in mem
    ensures Lists(list[..i + 1], mem, t) <==> Lists(list[..i], mem, t) || Lower(mem[list[i]]) == Lower(t)
  {}

  lemma ListsAppend(list: seq<nat>, mem: map<nat, string>, a: nat, t: string)
    requires a in mem
    ensures Lists(list + [a], mem, t) <==> Lists(list, mem, t) || Lower(mem[a]) == Lower(t)
  {
    var longer := list + [a];
    if Lists(list, mem, t) {
      var k :| 0 <= k < |list| && list[k] in mem && Lower(mem[list[k]]) == Lower(t);
      assert longer[k] == list[k];
    }
    assert longer[|list|] == a;
  }

  lemma ListsSame(list: seq<nat>, mem: map<nat, string>, a: string, b: string)
    ensures Lower(a) == Lower(b) ==> (Lists(list, mem, a) <==> Lists(list, mem, b))
  {}

  /** In the reader's terms: a type that is not the empty string is named by the list exactly if, case
      aside, it is one of its words. */
  lemma NamedByTheList(words: string, t: string)
    requires t != ""
    ensures ListsToken(Tokens(words, 0), t) <==> exists w :: Lower(w) == Lower(t) && HasWord(words, 0, w)
  {
    var tokens := Tokens(words, 0);
    if ListsToken(tokens, t) {
      var i :| 0 <= i < |tokens| && Lower(tokens[i]) == Lower(t);
      assert tokens[i] != "" by { assert |Lower(tokens[i])| == |Lower(t)|; }
      TokensAreWords(words, 0, tokens[i]);
    }
    if exists w :: Lower(w) == Lower(t) && HasWord(words, 0, w) {
      var w :| Lower(w) == Lower(t) && HasWord(words, 0, w);
      assert w != "" by { assert |Lower(w)| == |Lower(t)|; }
      TokensAreWords(words, 0, w);
    }
  }

  lemma ListedIsNamed(words: string)
    ensures forall t | t != "" :: ListsToken(Tokens(words, 0), t) <==> Names(words, t)
  {
    forall t | t != "" ensures ListsToken(Tokens(words, 0), t) <==> Names(words, t) {
      NamedByTheList(words, t);
      NamesIsWord(words, t);
    }
  }
}
