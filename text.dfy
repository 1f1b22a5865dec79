/** The pieces of Ruby's String and Array library the sync script relies on:
    prefixes, digits and String#to_i, Array#join, line splitting for the
    `^`/`$` anchors, Array#uniq and the byte-wise order of String#<=> with
    the Array#sort built on it. */
module Text {

  predicate StartsWith(s: string, prefix: string) {
    |prefix| <= |s| && s[..|prefix|] == prefix
  }

  predicate IsDigit(c: char) {
    '0' <= c <= '9'
  }

  predicate AllDigits(s: string) {
    forall i :: 0 <= i < |s| ==> IsDigit(s[i])
  }

  /** String#to_i on a string of decimal digits. */
  function DecimalValue(s: string): nat
    requires AllDigits(s)
  {
    if s == [] then 0
    else 10 * DecimalValue(s[..|s| - 1]) + (s[|s| - 1] as int - '0' as int)
  }

  /** The length of the run of digits `s` starts with. */
  function DigitRun(s: string): (n: nat)
    ensures n <= |s| && AllDigits(s[..n])
    ensures n < |s| ==> !IsDigit(s[n])
  {
    if s == [] || !IsDigit(s[0]) then 0
    else
      var n := 1 + DigitRun(s[1..]);
      assert s[..n] == [s[0]] + s[1..][..n - 1];
      n
  }

  /** Array#join with a separator. */
  function Join(parts: seq<string>, sep: string): string {
    if parts == [] then ""
    else if |parts| == 1 then parts[0]
    else parts[0] + sep + Join(parts[1..], sep)
  }

  /** The lines of `s` as Ruby's `^` and `$` anchors see them: the pieces
      between newline characters. */
  function Lines(s: string): (ls: seq<string>)
    ensures |ls| >= 1
    ensures forall i :: 0 <= i < |ls| ==> '\n' !in ls[i]
    ensures Join(ls, "\n") == s
  {
    if s == [] then [""]
    else
      var rest := Lines(s[1..]);
      if s[0] == '\n' then
        [""] + rest
      else
        var first := [s[0]] + rest[0];
        assert Join([first] + rest[1..], "\n") == [s[0]] + Join(rest, "\n") by {
          JoinConsFirst(s[0], rest, "\n");
        }
        [first] + rest[1..]
  }

  lemma JoinConsFirst(c: char, parts: seq<string>, sep: string)
    requires |parts| >= 1
    ensures Join([[c] + parts[0]] + parts[1..], sep) == [c] + Join(parts, sep)
  {
    var ps := [[c] + parts[0]] + parts[1..];
    assert ps[1..] == parts[1..];
  }

  /** A string without newlines is a single line. */
  lemma {:induction false} LinesOfOneLine(s: string)
    requires '\n' !in s
    ensures Lines(s) == [s]
  {
    if s != [] {
      LinesOfOneLine(s[1..]);
      assert [s[0]] + s[1..] == s;
    }
  }

  predicate NoDuplicates<T(==)>(s: seq<T>) {
    forall i, j :: 0 <= i < j < |s| ==> s[i] != s[j]
  }

  /** The position of the first occurrence of `x` in `s`. */
  function FirstIndex<T(==)>(s: seq<T>, x: T): (i: nat)
    requires x in s
    ensures i < |s| && s[i] == x
    ensures forall j :: 0 <= j < i ==> s[j] != x
  {
    if s[0] == x then 0 else 1 + FirstIndex(s[1..], x)
  }

  lemma FirstIndexDistinct<T>(s: seq<T>, a: nat)
    requires NoDuplicates(s) && a < |s|
    ensures FirstIndex(s, s[a]) == a
  {
  }

  /** Array#uniq: the distinct elements of `s`, each where it first occurs. */
  function Dedup(s: seq<string>): (d: seq<string>)
    ensures forall x :: x in d <==> x in s
    ensures NoDuplicates(d)
  {
    if s == [] then []
    else
      var p := Dedup(s[..|s| - 1]);
      if s[|s| - 1] in p then p else p + [s[|s| - 1]]
  }

  lemma FirstIndexOfPrefix<T>(s: seq<T>, n: nat, x: T)
    requires n <= |s| && x in s[..n]
    ensures FirstIndex(s, x) == FirstIndex(s[..n], x)
  {
    var k := FirstIndex(s[..n], x);
    var i := FirstIndex(s, x);
    assert s[k] == s[..n][k];
    assert i <= k < n;
    assert s[..n][i] == s[i];
  }

  /** Array#uniq keeps the order of first appearance. */
  lemma {:induction false} DedupKeepsFirstOccurrenceOrder(s: seq<string>, i: nat, j: nat)
    requires i < j < |Dedup(s)|
    ensures FirstIndex(s, Dedup(s)[i]) < FirstIndex(s, Dedup(s)[j])
  {
    var pre := s[..|s| - 1];
    var p := Dedup(pre);
    var x := s[|s| - 1];
    var d := Dedup(s);
    assert d[i] in pre && d[i] in s by {
      assert i < |p| && d[i] == p[i];
    }
    FirstIndexOfPrefix(s, |s| - 1, d[i]);
    if j < |p| {
      assert d[j] == p[j];
      FirstIndexOfPrefix(s, |s| - 1, d[j]);
      DedupKeepsFirstOccurrenceOrder(pre, i, j);
    } else {
      assert d[j] == x && x !in pre;
      assert FirstIndex(s, x) == |s| - 1 by {
        forall k | 0 <= k < |s| - 1 ensures s[k] != x {
          assert s[k] == pre[k];
        }
      }
    }
  }

  /** String#<=> order: byte-wise (here character-wise) lexicographic. */
  predicate StrLe(a: string, b: string)
    decreases |a|
  {
    a == [] || (b != [] && (a[0] < b[0] || (a[0] == b[0] && StrLe(a[1..], b[1..]))))
  }

  lemma StrLeReflexive(a: string)
    ensures StrLe(a, a)
    decreases |a|
  {
    if a != [] {
      StrLeReflexive(a[1..]);
    }
  }

  lemma StrLeTotal(a: string, b: string)
    ensures StrLe(a, b) || StrLe(b, a)
    decreases |a|
  {
    if a != [] && b != [] && a[0] == b[0] {
      StrLeTotal(a[1..], b[1..]);
    }
  }

  lemma StrLeAntisymmetric(a: string, b: string)
    requires StrLe(a, b) && StrLe(b, a)
    ensures a == b
    decreases |a|
  {
    if a != [] {
      StrLeAntisymmetric(a[1..], b[1..]);
      assert a == [a[0]] + a[1..] && b == [b[0]] + b[1..];
    }
  }

  lemma StrLeTransitive(a: string, b: string, c: string)
    requires StrLe(a, b) && StrLe(b, c)
    ensures StrLe(a, c)
    decreases |a|
  {
    if a != [] && a[0] == b[0] && b[0] == c[0] {
      StrLeTransitive(a[1..], b[1..], c[1..]);
    }
  }

  predicate Sorted(s: seq<string>) {
    forall i, j :: 0 <= i < j < |s| ==> StrLe(s[i], s[j])
  }

  function Insert(x: string, s: seq<string>): (r: seq<string>)
    requires Sorted(s)
    ensures Sorted(r)
    ensures multiset(r) == multiset(s) + multiset{x}
  {
    if s == [] then [x]
    else if StrLe(x, s[0]) then
      forall j | 0 < j < |s| ensures StrLe(x, s[j]) {
        StrLeTransitive(x, s[0], s[j]);
      }
      [x] + s
    else
      StrLeTotal(x, s[0]);
      var t := Insert(x, s[1..]);
      assert s == [s[0]] + s[1..];
      forall j | 0 <= j < |t| ensures StrLe(s[0], t[j]) {
        assert t[j] in multiset(t);
        if t[j] != x {
          assert t[j] in multiset(s[1..]);
          var k :| 0 <= k < |s[1..]| && s[1..][k] == t[j];
          assert s[1 + k] == t[j];
        }
      }
      [s[0]] + t
  }

  /** Array#sort on strings: ascending in String#<=> order. */
  function SortStrings(s: seq<string>): (r: seq<string>)
    ensures Sorted(r)
    ensures multiset(r) == multiset(s)
  {
    if s == [] then []
    else
      assert s == [s[0]] + s[1..];
      Insert(s[0], SortStrings(s[1..]))
  }

  /** A sorted arrangement of a multiset of strings is unique, so any
      correct sort gives what SortStrings gives. */
  lemma {:induction false} SortedPermutationIsUnique(a: seq<string>, b: seq<string>)
    requires Sorted(a) && Sorted(b) && multiset(a) == multiset(b)
    ensures a == b
  {
    if a != [] {
      assert |b| == |a| by { assert |multiset(a)| == |multiset(b)|; }
      HeadIsLeast(a, b[0]);
      HeadIsLeast(b, a[0]);
      StrLeAntisymmetric(a[0], b[0]);
      TailAfterHead(a);
      TailAfterHead(b);
      SortedPermutationIsUnique(a[1..], b[1..]);
    }
  }

  lemma HeadIsLeast(s: seq<string>, y: string)
    requires Sorted(s) && y in multiset(s)
    ensures StrLe(s[0], y)
  {
    var i :| 0 <= i < |s| && s[i] == y;
    if i == 0 {
      StrLeReflexive(y);
    }
  }

  lemma TailAfterHead(s: seq<string>)
    requires Sorted(s) && s != []
    ensures Sorted(s[1..])
    ensures s == [s[0]] + s[1..]
    ensures multiset(s[1..]) == multiset(s) - multiset{s[0]}
  {
    assert s == [s[0]] + s[1..];
  }
}
