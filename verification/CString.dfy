/** The C library calls behind the sorted tables: strcmp, strncmp, qsort and bsearch, and the lower case
    of the C locale, in which strcasecmp compares. A string is its characters up to the terminating NUL. */
module CString {

  /** The sign of strcmp(a, b). */
  function Strcmp(a: string, b: string): int {
    if |a| == 0 then (if |b| == 0 then 0 else -1)
    else if |b| == 0 then 1
    else if a[0] < b[0] then -1
    else if a[0] > b[0] then 1
    else Strcmp(a[1..], b[1..])
  }

  /** The sign of strncmp(a, b, n). */
  function Strncmp(a: string, b: string, n: nat): int {
    if n == 0 then 0
    else if |a| == 0 then (if |b| == 0 then 0 else -1)
    else if |b| == 0 then 1
    else if a[0] < b[0] then -1
    else if a[0] > b[0] then 1
    else Strncmp(a[1..], b[1..], n - 1)
  }

  function ToLower(c: char): char {
    if 'A' <= c <= 'Z' then c + ('a' - 'A') else c
  }

  function Lower(s: string): (r: string)
    ensures |r| == |s|
  {
    seq(|s|, i requires 0 <= i < |s| => ToLower(s[i]))
  }

  /** Strings are compared at the first place where they differ or one of them ends. */
  lemma {:induction false} StrcmpSpelledOut(a: string, b: string, k: nat)
    requires k <= |a| && k <= |b| && a[..k] == b[..k] && (k < |a| && k < |b| ==> a[k] != b[k])
    ensures Strcmp(a, b) == if k == |a| then (if k == |b| then 0 else -1)
                            else if k == |b| then 1
                            else if a[k] < b[k] then -1 else 1
  {
    if k > 0 {
      assert a[0] == a[..k][0] && b[0] == b[..k][0];
      assert a[1..][..k - 1] == a[..k][1..] && b[1..][..k - 1] == b[..k][1..];
      StrcmpSpelledOut(a[1..], b[1..], k - 1);
    }
  }

  lemma {:induction false} StrcmpZero(a: string, b: string)
    ensures Strcmp(a, b) == 0 <==> a == b
  {
    if |a| > 0 && |b| > 0 && a[0] == b[0] {
      StrcmpZero(a[1..], b[1..]);
      assert a == [a[0]] + a[1..] && b == [b[0]] + b[1..];
    }
  }

  lemma {:induction false} StrcmpFlips(a: string, b: string)
    ensures Strcmp(b, a) == -Strcmp(a, b)
  {
    if |a| > 0 && |b| > 0 {
      StrcmpFlips(a[1..], b[1..]);
    }
  }

  lemma {:induction false} StrcmpTransitive(a: string, b: string, c: string)
    requires Strcmp(a, b) <= 0 && Strcmp(b, c) <= 0
    ensures Strcmp(a, c) <= 0
    ensures Strcmp(a, b) < 0 || Strcmp(b, c) < 0 ==> Strcmp(a, c) < 0
  {
    if |a| > 0 && |b| > 0 && |c| > 0 && a[0] == b[0] == c[0] {
      StrcmpTransitive(a[1..], b[1..], c[1..]);
    }
  }

  /** strncmp over the length of the key is a test for a prefix. */
  lemma {:induction false} StrncmpIsPrefix(key: string, s: string)
    ensures Strncmp(key, s, |key|) == 0 <==> key <= s
  {
    if |key| > 0 && |s| > 0 && key[0] == s[0] {
      StrncmpIsPrefix(key[1..], s[1..]);
      assert key == [key[0]] + key[1..] && s == [s[0]] + s[1..];
    }
  }

  /** Prefix comparison respects the order of whole strings. */
  lemma {:induction false} StrncmpMonotone(key: string, a: string, b: string)
    requires Strcmp(a, b) <= 0
    ensures Strncmp(key, a, |key|) < 0 ==> Strncmp(key, b, |key|) < 0
    ensures Strncmp(key, b, |key|) > 0 ==> Strncmp(key, a, |key|) > 0
  {
    if |key| > 0 && |a| > 0 && |b| > 0 && key[0] == a[0] == b[0] {
      StrncmpMonotone(key[1..], a[1..], b[1..]);
    }
  }

  lemma StrcmpMonotone(key: string, a: string, b: string)
    requires Strcmp(a, b) <= 0
    ensures Strcmp(key, a) < 0 ==> Strcmp(key, b) < 0
    ensures Strcmp(key, b) > 0 ==> Strcmp(key, a) > 0
  {}

  // ---- sorting and searching -------------------------------------------------------------------

  ghost predicate SortedBy<T>(s: seq<T>, key: T -> string) {
    forall i, j | 0 <= i < j < |s| :: Strcmp(key(s[i]), key(s[j])) <= 0
  }

  ghost predicate StrictlySortedBy<T>(s: seq<T>, key: T -> string) {
    forall i, j | 0 <= i < j < |s| :: Strcmp(key(s[i]), key(s[j])) < 0
  }

  lemma InsertKeepsSorted<T>(s: seq<T>, p: nat, x: T, key: T -> string)
    requires SortedBy(s, key) && p <= |s|
    requires forall i | 0 <= i < p :: Strcmp(key(s[i]), key(x)) <= 0
    requires p < |s| ==> Strcmp(key(x), key(s[p])) <= 0
    ensures SortedBy(s[..p] + [x] + s[p..], key)
  {
    forall i | p <= i < |s| ensures Strcmp(key(x), key(s[i])) <= 0 {
      if i > p {
        StrcmpTransitive(key(x), key(s[p]), key(s[i]));
      }
    }
  }

  /** Where an element belongs in a sorted sequence. */
  lemma {:induction false} Position<T>(s: seq<T>, x: T, key: T -> string) returns (p: nat)
    requires SortedBy(s, key)
    ensures p <= |s| && (forall i | 0 <= i < p :: Strcmp(key(s[i]), key(x)) <= 0)
    ensures p < |s| ==> Strcmp(key(x), key(s[p])) <= 0
  {
    p := |s|;
    if |s| > 0 {
      var n := |s| - 1;
      if Strcmp(key(s[n]), key(x)) <= 0 {
        forall i | 0 <= i < n ensures Strcmp(key(s[i]), key(x)) <= 0 {
          StrcmpTransitive(key(s[i]), key(s[n]), key(x));
        }
      } else {
        StrcmpFlips(key(s[n]), key(x));
        p := Position(s[..n], x, key);
      }
    }
  }

  method Insert<T>(s: seq<T>, x: T, key: T -> string) returns (t: seq<T>)
    requires SortedBy(s, key)
    ensures SortedBy(t, key) && multiset(t) == multiset(s) + multiset{x}
  {
    var p := 0;
    while p < |s| && Strcmp(key(s[p]), key(x)) <= 0
      invariant 0 <= p <= |s|
      invariant forall k | 0 <= k < p :: Strcmp(key(s[k]), key(x)) <= 0
    {
      p := p + 1;
    }
    if p < |s| {
      StrcmpFlips(key(s[p]), key(x));
    }
    InsertKeepsSorted(s, p, x, key);
    InsertKeepsContents(s, p, x);
    t := s[..p] + [x] + s[p..];
  }

  lemma InsertKeepsContents<T>(s: seq<T>, p: nat, x: T)
    requires p <= |s|
    ensures multiset(s[..p] + [x] + s[p..]) == multiset(s) + multiset{x}
  {
    assert s == s[..p] + s[p..];
  }

  /** qsort: callers may rely on the order and the contents, not on how ties come out. */
  method QSort<T>(s: seq<T>, key: T -> string) returns (t: seq<T>)
    ensures SortedBy(t, key) && multiset(t) == multiset(s)
  {
    t := [];
    var i := 0;
    while i < |s|
      invariant 0 <= i <= |s|
      invariant SortedBy(t, key) && multiset(t) == multiset(s[..i])
    {
      t := Insert(t, s[i], key);
      assert s[..i + 1] == s[..i] + [s[i]];
      i := i + 1;
    }
    assert s[..i] == s;
  }

  /** `probe` says on which side of an element the key lies, and agrees with the order of `a`. */
  ghost predicate Brackets<T>(a: seq<T>, probe: T -> int) {
    forall i, j | 0 <= i < j < |a| ::
      (probe(a[i]) < 0 ==> probe(a[j]) < 0) && (probe(a[j]) > 0 ==> probe(a[i]) > 0)
  }

  /** bsearch; -1 is NULL. Which of several matches is returned is left open. */
  method BSearch<T>(a: seq<T>, probe: T -> int) returns (r: int)
    requires Brackets(a, probe)
    ensures r == -1 || (0 <= r < |a| && probe(a[r]) == 0)
    ensures r == -1 <==> forall i | 0 <= i < |a| :: probe(a[i]) != 0
  {
    var lo, hi := 0, |a|;
    while lo < hi
      invariant 0 <= lo <= hi <= |a|
      invariant forall i | 0 <= i < lo :: probe(a[i]) > 0
      invariant forall i | hi <= i < |a| :: probe(a[i]) < 0
    {
      var mid := (lo + hi) / 2;
      if probe(a[mid]) < 0 {
        hi := mid;
      } else if probe(a[mid]) > 0 {
        lo := mid + 1;
      } else {
        return mid;
      }
    }
    return -1;
  }

  /** A whole-string key brackets a sorted table. */
  lemma ExactBrackets<T>(a: seq<T>, key: T -> string, name: string)
    requires SortedBy(a, key)
    ensures Brackets(a, e => Strcmp(name, key(e)))
  {
    forall i, j | 0 <= i < j < |a|
      ensures Strcmp(name, key(a[i])) < 0 ==> Strcmp(name, key(a[j])) < 0
      ensures Strcmp(name, key(a[j])) > 0 ==> Strcmp(name, key(a[i])) > 0
    {
      StrcmpMonotone(name, key(a[i]), key(a[j]));
    }
  }

  /** So does a prefix. */
  lemma PrefixBrackets<T>(a: seq<T>, key: T -> string, name: string)
    requires SortedBy(a, key)
    ensures Brackets(a, e => Strncmp(name, key(e), |name|))
  {
    forall i, j | 0 <= i < j < |a|
      ensures Strncmp(name, key(a[i]), |name|) < 0 ==> Strncmp(name, key(a[j]), |name|) < 0
      ensures Strncmp(name, key(a[j]), |name|) > 0 ==> Strncmp(name, key(a[i]), |name|) > 0
    {
      StrncmpMonotone(name, key(a[i]), key(a[j]));
    }
  }
}
