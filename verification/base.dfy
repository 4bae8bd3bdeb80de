/** Small shared vocabulary: an optional value, order-preserving selection
    from a sequence, and splitting/joining text on line breaks. */
module Base {

  datatype Option<+T> = None | Some(value: T)

  /** `sub` is obtained from `s` by deleting zero or more elements, keeping
      the order of the remaining ones (greedy matching decides this). */
  predicate IsSubsequence<T(==)>(sub: seq<T>, s: seq<T>)
    decreases |s|
  {
    if sub == [] then true
    else if s == [] then false
    else if sub[0] == s[0] then IsSubsequence(sub[1..], s[1..])
    else IsSubsequence(sub, s[1..])
  }

  /** The elements of `s` satisfying `p`, in their original order and with
      their original multiplicity. */
  function Filter<T(==,!new)>(s: seq<T>, p: T -> bool): (r: seq<T>)
    ensures |r| <= |s|
    ensures forall x :: x in r <==> x in s && p(x)
    ensures forall x :: multiset(r)[x] == if p(x) then multiset(s)[x] else 0
    ensures IsSubsequence(r, s)
  {
    if s == [] then []
    else
      var rest := Filter(s[1..], p);
      assert s == [s[0]] + s[1..];
      if p(s[0]) then
        assert ([s[0]] + rest)[1..] == rest;
        [s[0]] + rest
      else
        assert rest == [] || rest[0] != s[0] by {
          if rest != [] { assert rest[0] in rest; }
        }
        rest
  }

  /** The text of `s` split at every line break, as Python's `s.split("\n")`:
      always at least one (possibly empty) piece. */
  function Lines(s: string): (ls: seq<string>)
    ensures |ls| >= 1
    ensures forall i :: 0 <= i < |ls| ==> '\n' !in ls[i]
    decreases |s|
  {
    if s == [] then [[]]
    else
      var rest := Lines(s[1..]);
      if s[0] == '\n' then [[]] + rest
      else
        assert '\n' !in rest[0];
        [[s[0]] + rest[0]] + rest[1..]
  }

  /** The pieces of `ls` joined by line breaks, as Python's `"\n".join(ls)`. */
  function JoinLines(ls: seq<string>): string
  {
    if ls == [] then []
    else if |ls| == 1 then ls[0]
    else ls[0] + "\n" + JoinLines(ls[1..])
  }

  predicate NoLineBreaks(ls: seq<string>) {
    forall i :: 0 <= i < |ls| ==> '\n' !in ls[i]
  }

  /** A line-break-free prefix followed by a break is one whole line. */
  lemma {:induction false} LinesAfterLine(a: string, rest: string)
    requires '\n' !in a
    ensures Lines(a + "\n" + rest) == [a] + Lines(rest)
    decreases |a|
  {
    if a == [] {
      assert a + "\n" + rest == ['\n'] + rest;
      assert (['\n'] + rest)[1..] == rest;
    } else {
      var s := a + "\n" + rest;
      assert s[0] == a[0];
      assert s[1..] == a[1..] + "\n" + rest;
      assert '\n' !in a[1..] by {
        forall i | 0 <= i < |a[1..]| ensures a[1..][i] != '\n' {
          assert a[1..][i] == a[i + 1];
        }
      }
      LinesAfterLine(a[1..], rest);
      assert [a[0]] + a[1..] == a;
    }
  }

  /** Splitting undoes joining: a non-empty list of break-free lines, joined
      and followed by a break, comes back line for line. */
  lemma {:induction false} LinesOfJoin(ls: seq<string>, rest: string)
    requires |ls| >= 1
    requires NoLineBreaks(ls)
    ensures Lines(JoinLines(ls) + "\n" + rest) == ls + Lines(rest)
    decreases |ls|
  {
    if |ls| == 1 {
      LinesAfterLine(ls[0], rest);
    } else {
      var tail := ls[1..];
      assert NoLineBreaks(tail) by {
        forall i | 0 <= i < |tail| ensures '\n' !in tail[i] {
          assert tail[i] == ls[i + 1];
        }
      }
      var joined := JoinLines(ls) + "\n" + rest;
      assert joined == ls[0] + "\n" + (JoinLines(tail) + "\n" + rest);
      LinesAfterLine(ls[0], JoinLines(tail) + "\n" + rest);
      LinesOfJoin(tail, rest);
      assert [ls[0]] + tail == ls;
    }
  }
}
