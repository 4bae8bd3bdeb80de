/** Extraction of a `/packit` command and its arguments from the text of a
    pull-request, merge-request or issue comment
    (`get_packit_commands_from_comment` in packit_service/worker/jobs.py). */
module CommentParser {
  import opened Base

  /** The literal that opens a command (REQUESTED_PULL_REQUEST_COMMENT). */
  const Marker: string := "/packit"

  /** Python's `str.isspace` on a fixed character set: the ASCII separators
      and the C1/Latin-1 spaces Python also treats as whitespace. */
  predicate IsSpace(c: char) {
    // '\t' to '\r' are the five characters 9 to 13
    c == ' ' || '\t' <= c <= '\r' || '\U{1c}' <= c <= '\U{1f}' || c == '\U{85}' || c == '\U{a0}'
  }

  /** The slash and the lower-case ASCII letters are not whitespace. */
  lemma NonSpaceChar(c: char)
    requires c == '/' || 'a' <= c <= 'z'
    ensures !IsSpace(c)
  {
  }

  lemma LowerWord(w: string)
    requires w != []
    requires forall i :: 0 <= i < |w| ==> 'a' <= w[i] <= 'z'
    ensures IsWord(w) && NoSpace(w)
  {
    forall i | 0 <= i < |w| ensures !IsSpace(w[i]) {
      NonSpaceChar(w[i]);
    }
  }

  predicate AllSpace(s: string) {
    forall i :: 0 <= i < |s| ==> IsSpace(s[i])
  }

  predicate NoSpace(s: string) {
    forall i :: 0 <= i < |s| ==> !IsSpace(s[i])
  }

  /** A token as `str.split()` produces it: non-empty, not starting with
      whitespace. */
  predicate IsWord(s: string) {
    s != [] && !IsSpace(s[0])
  }

  /** The marker occurs in `s` starting at index `i`. */
  predicate OccursAt(s: string, i: int) {
    0 <= i && i + |Marker| <= |s| && s[i..i + |Marker|] == Marker
  }

  predicate NoMarker(s: string) {
    forall i :: 0 <= i <= |s| ==> !OccursAt(s, i)
  }

  /** Python's `s.find(Marker, k)`: the first occurrence at or after `k`. */
  function FindFrom(s: string, k: nat): (r: Option<nat>)
    requires k <= |s|
    ensures r.Some? ==> k <= r.value && OccursAt(s, r.value)
    ensures r.Some? ==> forall i :: k <= i < r.value ==> !OccursAt(s, i)
    ensures r.None? ==> forall i :: k <= i <= |s| ==> !OccursAt(s, i)
    decreases |s| - k
  {
    if k + |Marker| > |s| then None
    else if s[k..k + |Marker|] == Marker then Some(k)
    else FindFrom(s, k + 1)
  }


  /** Only whitespace from index `i` on. */
  predicate AllSpaceFrom(s: string, i: nat) {
    forall j :: i <= j < |s| ==> IsSpace(s[j])
  }

  /** The first index at or after `i` that does not hold whitespace (`|s|`
      when there is none). */
  function SkipSpace(s: string, i: nat): (j: nat)
    requires i <= |s|
    ensures i <= j <= |s|
    ensures j < |s| ==> !IsSpace(s[j])
    decreases |s| - i
  {
    if i == |s| || !IsSpace(s[i]) then i else SkipSpace(s, i + 1)
  }

  /** The first index at or after `i` that holds whitespace (`|s|` when
      there is none). */
  function SkipWord(s: string, i: nat): (j: nat)
    requires i <= |s|
    ensures i <= j <= |s|
    ensures j < |s| ==> IsSpace(s[j])
    ensures i < |s| && !IsSpace(s[i]) ==> j > i
    decreases |s| - i
  {
    if i == |s| || IsSpace(s[i]) then i else SkipWord(s, i + 1)
  }

  /** Skipping whitespace reaches the end exactly when only whitespace is
      left. */
  lemma {:induction false} SkipSpaceToEnd(s: string, i: nat)
    requires i <= |s|
    ensures SkipSpace(s, i) == |s| <==> AllSpaceFrom(s, i)
    decreases |s| - i
  {
    if i < |s| && IsSpace(s[i]) {
      SkipSpaceToEnd(s, i + 1);
    }
  }

  /** Everything a word skip passes over is non-whitespace. */
  lemma {:induction false} SkipWordNoSpace(s: string, i: nat)
    requires i <= |s|
    ensures forall j :: i <= j < SkipWord(s, i) ==> !IsSpace(s[j])
    decreases |s| - i
  {
    if i < |s| && !IsSpace(s[i]) {
      SkipWordNoSpace(s, i + 1);
    }
  }

  /** A word skip passes over every non-whitespace run starting at `i`. */
  lemma {:induction false} SkipWordOver(s: string, i: nat, m: nat)
    requires i <= m <= |s|
    requires forall j :: i <= j < m ==> !IsSpace(s[j])
    ensures SkipWord(s, i) >= m
    decreases m - i
  {
    if i < m {
      SkipWordOver(s, i + 1, m);
    }
  }

  /** A non-whitespace run ending at whitespace or at the end is exactly one
      word skip. */
  lemma SkipWordExact(s: string, i: nat, m: nat)
    requires i <= m <= |s|
    requires forall j :: i <= j < m ==> !IsSpace(s[j])
    requires m == |s| || IsSpace(s[m])
    ensures SkipWord(s, i) == m
  {
    SkipWordOver(s, i, m);
    SkipWordNoSpace(s, i);
  }

  /** Python's `s[i:].split(maxsplit=k)`: up to `k` whitespace-free words,
      then the rest of the text with its leading whitespace dropped and
      everything else (inner and trailing whitespace included) kept as one
      more piece. */
  function SplitFrom(s: string, i: nat, k: nat): seq<string>
    requires i <= |s|
    decreases |s| - i
  {
    var a := SkipSpace(s, i);
    if a == |s| then []
    else if k == 0 then [s[a..]]
    else
      var b := SkipWord(s, a);
      [s[a..b]] + SplitFrom(s, b, k - 1)
  }

  /** At most `k + 1` pieces, each a word, the first `k` free of whitespace;
      no pieces exactly when only whitespace is left. */
  lemma {:induction false} SplitShape(s: string, i: nat, k: nat)
    requires i <= |s|
    ensures |SplitFrom(s, i, k)| <= k + 1
    ensures forall n :: 0 <= n < |SplitFrom(s, i, k)| ==> IsWord(SplitFrom(s, i, k)[n])
    ensures forall n :: 0 <= n < |SplitFrom(s, i, k)| && n < k ==> NoSpace(SplitFrom(s, i, k)[n])
    ensures SplitFrom(s, i, k) == [] <==> AllSpaceFrom(s, i)
    decreases |s| - i
  {
    var a := SkipSpace(s, i);
    SkipSpaceToEnd(s, i);
    if a < |s| && k > 0 {
      var b := SkipWord(s, a);
      SplitShape(s, b, k - 1);
      SkipWordNoSpace(s, a);
      var w := s[a..b];
      assert IsWord(w) by { assert w[0] == s[a]; }
      assert NoSpace(w) by {
        forall n | 0 <= n < |w| ensures !IsSpace(w[n]) { assert w[n] == s[a + n]; }
      }
      var rest := SplitFrom(s, b, k - 1);
      var parts := SplitFrom(s, i, k);
      assert parts == [w] + rest;
      forall n | 0 <= n < |parts| ensures IsWord(parts[n]) && (n < k ==> NoSpace(parts[n])) {
        if n > 0 { assert parts[n] == rest[n - 1]; }
      }
    } else if a < |s| {
      assert IsWord(s[a..]) by { assert s[a..][0] == s[a]; }
    }
  }

  /** Two starting points with the same first non-whitespace index split
      alike. */
  lemma SplitFromSameStart(s: string, i: nat, j: nat, k: nat)
    requires i <= |s| && j <= |s|
    requires SkipSpace(s, i) == SkipSpace(s, j)
    ensures SplitFrom(s, i, k) == SplitFrom(s, j, k)
  {
  }

  /** The command words of `comment` read from its first marker at `i`: the
      first piece must be the marker itself, the rest are the commands. */
  function CommandsAt(comment: string, i: nat): (args: seq<string>)
    requires i <= |comment|
    ensures |args| <= 3
    ensures forall n :: 0 <= n < |args| ==> IsWord(args[n])
    ensures forall n :: 0 <= n < |args| && n < 2 ==> NoSpace(args[n])
  {
    var parts := SplitFrom(comment, i, 3);
    SplitShape(comment, i, 3);
    if parts == [] || parts[0] != Marker then [] else parts[1..]
  }

  /** The command words of a comment: the pieces after the marker, where the
      first occurrence of the marker must be a standalone word and must be
      followed by at least one more word. */
  function Commands(comment: string): (args: seq<string>)
    ensures |args| <= 3
    ensures forall i :: 0 <= i < |args| ==> IsWord(args[i])
    ensures forall i :: 0 <= i < |args| && i < 2 ==> NoSpace(args[i])
    ensures AllSpace(comment) ==> args == []
    ensures NoMarker(comment) ==> args == []
  {
    if AllSpace(comment) then []
    else
      match FindFrom(comment, 0)
      case None => []
      case Some(i) => CommandsAt(comment, i)
  }

  /** A command as a user writes it: one to three words, the first two
      without whitespace; the last may hold whitespace when it is third. */
  predicate WellFormedArgs(args: seq<string>) {
    && 1 <= |args| <= 3
    && (forall i :: 0 <= i < |args| ==> IsWord(args[i]))
    && (forall i :: 0 <= i < |args| && i < 2 ==> NoSpace(args[i]))
  }

  /** The arguments separated by single spaces. */
  function Render(args: seq<string>): string {
    if args == [] then []
    else if |args| == 1 then args[0]
    else args[0] + " " + Render(args[1..])
  }

  /** Every non-empty result of the parser is a well-formed command. */
  lemma ResultIsWellFormed(comment: string)
    ensures Commands(comment) != [] ==> WellFormedArgs(Commands(comment))
  {
  }

  /** Rendering starts with the first argument's first character. */
  lemma RenderIsWord(args: seq<string>)
    requires 1 <= |args|
    requires forall i :: 0 <= i < |args| ==> IsWord(args[i])
    ensures IsWord(Render(args))
  {
    assert Render(args)[0] == args[0][0];
  }

  /** Splitting at a non-whitespace character with splits left takes the
      word there and continues after it. */
  lemma SplitFromWord(s: string, i: nat, k: nat)
    requires i < |s| && !IsSpace(s[i]) && k > 0
    ensures SplitFrom(s, i, k) == [s[i..SkipWord(s, i)]] + SplitFrom(s, SkipWord(s, i), k - 1)
  {
  }

  /** A whitespace-free word at `i`, one space and then a word: the first
      word splits off and the split continues at the second. */
  lemma SplitWordSpace(s: string, i: nat, a: string, k: nat)
    requires k > 0 && IsWord(a) && NoSpace(a)
    requires i + |a| + 1 < |s| && s[i..i + |a|] == a
    requires s[i + |a|] == ' ' && !IsSpace(s[i + |a| + 1])
    ensures SplitFrom(s, i, k) == [a] + SplitFrom(s, i + |a| + 1, k - 1)
  {
    var b := i + |a|;
    forall j | i <= j < b ensures !IsSpace(s[j]) {
      assert s[j] == s[i..b][j - i];
    }
    SkipWordExact(s, i, b);
    assert s[i] == a[0];
    SplitFromWord(s, i, k);
    assert SkipSpace(s, b) == b + 1;
    SplitFromSameStart(s, b, b + 1, k - 1);
  }

  /** A word that runs to the end of the text is the last piece. */
  lemma SplitLastWord(s: string, i: nat, a: string, k: nat)
    requires i <= |s| && s[i..] == a && IsWord(a)
    requires k > 0 ==> NoSpace(a)
    ensures SplitFrom(s, i, k) == [a]
  {
    assert s[i] == a[0];
    if k > 0 {
      forall j | i <= j < |s| ensures !IsSpace(s[j]) {
        assert s[j] == a[j - i];
      }
      SkipWordExact(s, i, |s|);
      SplitFromWord(s, i, k);
      assert s[i..|s|] == a;
    }
  }

  /** The text from `i` on is `Render(args)`, stated position by position:
      each word sits where the previous one and a single space end. */
  predicate RenderedAt(s: string, i: nat, args: seq<string>)
    requires args != []
    decreases |args|
  {
    var a := args[0];
    if |args| == 1 then i <= |s| && s[i..] == a
    else
      && i + |a| < |s| && s[i..i + |a|] == a && s[i + |a|] == ' '
      && RenderedAt(s, i + |a| + 1, args[1..])
  }

  /** Rendered text starts with the first word. */
  lemma RenderedStart(s: string, i: nat, args: seq<string>)
    requires args != [] && args[0] != [] && RenderedAt(s, i, args)
    ensures i < |s| && s[i] == args[0][0]
  {
    var a := args[0];
    if |args| == 1 {
      assert s[i..][0] == a[0];
    } else {
      assert s[i..i + |a|][0] == a[0];
    }
  }

  /** `Render` lays its words out as `RenderedAt` describes. */
  lemma {:induction false} RenderLayout(p: string, args: seq<string>)
    requires args != []
    ensures RenderedAt(p + Render(args), |p|, args)
    decreases |args|
  {
    var a := args[0];
    if |args| == 1 {
      assert (p + a)[|p|..] == a;
    } else {
      var tl := args[1..];
      var r := Render(tl);
      var q := p + a + " ";
      var s := p + Render(args);
      assert Render(args) == a + " " + r;
      assert s == q + r;
      assert s[|p|..|p| + |a|] == a;
      assert s[|p| + |a|] == ' ';
      RenderLayout(q, tl);
    }
  }

  /** Splitting the single-space rendering of well-formed words, wherever it
      starts, gives the words back. */
  lemma {:induction false} SplitRendered(s: string, i: nat, args: seq<string>, k: nat)
    requires 1 <= |args| <= k + 1
    requires forall n :: 0 <= n < |args| ==> IsWord(args[n])
    requires forall n :: 0 <= n < |args| && n < k ==> NoSpace(args[n])
    requires RenderedAt(s, i, args)
    ensures SplitFrom(s, i, k) == args
    decreases |args|
  {
    var a := args[0];
    if |args| == 1 {
      SplitLastWord(s, i, a, k);
      assert args == [a];
    } else {
      var tl := args[1..];
      var c := i + |a| + 1;
      RenderedStart(s, c, tl);
      SplitWordSpace(s, i, a, k);
      SplitRendered(s, c, tl, k - 1);
      assert [a] + tl == args;
    }
  }

  /** The round trip of `Render` and the split, wherever the rendering
      starts. */
  lemma SplitRender(p: string, args: seq<string>, k: nat)
    requires 1 <= |args| <= k + 1
    requires forall n :: 0 <= n < |args| ==> IsWord(args[n])
    requires forall n :: 0 <= n < |args| && n < k ==> NoSpace(args[n])
    ensures SplitFrom(p + Render(args), |p|, k) == args
  {
    RenderLayout(p, args);
    SplitRendered(p + Render(args), |p|, args, k);
  }

  /** Where text without the marker is followed by the marker, the marker's
      first occurrence is exactly there: no occurrence can straddle the
      boundary, because `/` appears in the marker only at its start. */
  lemma {:induction false} FirstMarkerAfter(prefix: string, tail: string)
    requires NoMarker(prefix)
    ensures FindFrom(prefix + Marker + tail, 0) == Some(|prefix|)
  {
    var s := prefix + Marker + tail;
    assert OccursAt(s, |prefix|) by {
      assert s[|prefix|..|prefix| + |Marker|] == Marker;
    }
    forall i | 0 <= i < |prefix| ensures !OccursAt(s, i) {
      if i + |Marker| <= |prefix| {
        assert s[i..i + |Marker|] == prefix[i..i + |Marker|];
        assert !OccursAt(prefix, i);
      } else {
        var j := |prefix| - i;
        assert s[|prefix|] == '/';
        assert Marker[j] != '/';
        assert s[i..i + |Marker|][j] != Marker[j];
      }
    }
    var r := FindFrom(s, 0);
    assert r.Some? && r.value <= |prefix|;
  }

  /** A comment whose first marker sits after `prefix` is parsed from there. */
  lemma CommandsAfterPrefix(prefix: string, tail: string)
    requires NoMarker(prefix)
    ensures Commands(prefix + Marker + tail) == CommandsAt(prefix + Marker + tail, |prefix|)
    ensures OccursAt(prefix + Marker + tail, |prefix|)
  {
    var s := prefix + Marker + tail;
    FirstMarkerAfter(prefix, tail);
    assert !AllSpace(s) by {
      assert s[|prefix|] == '/';
      NonSpaceChar('/');
    }
  }

  lemma MarkerIsWord()
    ensures IsWord(Marker) && NoSpace(Marker)
  {
    forall i | 0 <= i < |Marker| ensures !IsSpace(Marker[i]) {
      assert Marker[i] == '/' || 'a' <= Marker[i] <= 'z';
      NonSpaceChar(Marker[i]);
    }
  }

  /** The marker at `i` is a run of non-whitespace characters. */
  lemma MarkerAt(s: string, i: nat)
    requires OccursAt(s, i)
    ensures forall j :: i <= j < i + |Marker| ==> !IsSpace(s[j])
  {
    MarkerIsWord();
    forall j | i <= j < i + |Marker| ensures !IsSpace(s[j]) {
      assert s[j] == s[i..i + |Marker|][j - i];
    }
  }

  /** When the marker at `i` stands alone, the commands are the split, with
      two splits, of what follows it. */
  lemma CommandsAtMarker(s: string, i: nat)
    requires OccursAt(s, i)
    requires i + |Marker| == |s| || IsSpace(s[i + |Marker|])
    ensures CommandsAt(s, i) == SplitFrom(s, i + |Marker|, 2)
  {
    MarkerAt(s, i);
    SkipWordExact(s, i, i + |Marker|);
    SplitFromWord(s, i, 3);
    var rest := SplitFrom(s, i + |Marker|, 2);
    assert ([Marker] + rest)[1..] == rest;
  }

  /** When the marker at `i` is glued to a further non-whitespace character,
      its piece is longer than the marker and there are no commands. */
  lemma GluedAt(s: string, i: nat)
    requires OccursAt(s, i)
    requires i + |Marker| < |s| && !IsSpace(s[i + |Marker|])
    ensures CommandsAt(s, i) == []
  {
    MarkerAt(s, i);
    SkipWordOver(s, i, i + |Marker| + 1);
    SplitFromWord(s, i, 3);
    assert |SplitFrom(s, i, 3)[0]| > |Marker|;
  }

  /** Parsing a well-formed command written after the marker and one space
      returns exactly its words, whatever text without the marker precedes
      it (`x/packit build` yields `["build"]`). */
  lemma ParseRender(prefix: string, args: seq<string>)
    requires NoMarker(prefix)
    requires WellFormedArgs(args)
    ensures Commands(prefix + Marker + " " + Render(args)) == args
  {
    var q := prefix + Marker + " ";
    var s := q + Render(args);
    assert s == prefix + Marker + (" " + Render(args));
    CommandsAfterPrefix(prefix, " " + Render(args));
    var m := |prefix| + |Marker|;
    assert s[m] == ' ';
    CommandsAtMarker(s, |prefix|);
    RenderIsWord(args);
    assert s[|q|] == Render(args)[0];
    assert SkipSpace(s, m) == |q|;
    SplitFromSameStart(s, m, |q|, 2);
    SplitRender(q, args, 2);
  }

  /** Only the first occurrence of the marker is examined: when it is glued
      to further non-whitespace text, there is no command, even if a valid
      command follows later (`/packitbuild` yields `[]`). */
  lemma GluedMarker(prefix: string, c: char, rest: string)
    requires NoMarker(prefix)
    requires !IsSpace(c)
    ensures Commands(prefix + Marker + [c] + rest) == []
  {
    var s := prefix + Marker + [c] + rest;
    assert s == prefix + Marker + ([c] + rest);
    CommandsAfterPrefix(prefix, [c] + rest);
    assert s[|prefix| + |Marker|] == c;
    GluedAt(s, |prefix|);
  }

  /** Whitespace appended to any text is whitespace to the end. */
  lemma SpaceSuffix(p: string, w: string)
    requires AllSpace(w)
    ensures AllSpaceFrom(p + w, |p|)
  {
    forall j | |p| <= j < |p + w| ensures IsSpace((p + w)[j]) {
      assert (p + w)[j] == w[j - |p|];
    }
  }

  /** The marker alone, followed only by whitespace, is not a command. */
  lemma MarkerAlone(prefix: string, ws: string)
    requires NoMarker(prefix)
    requires AllSpace(ws)
    ensures Commands(prefix + Marker + ws) == []
  {
    var s := prefix + Marker + ws;
    var m := |prefix| + |Marker|;
    CommandsAfterPrefix(prefix, ws);
    SpaceSuffix(prefix + Marker, ws);
    CommandsAtMarker(s, |prefix|);
    SkipSpaceToEnd(s, m);
  }

  /** The worked examples: `/packit build`, `random text`, `/packitbuild`
      and `/packit a b c d` (whose last argument keeps its inner space). */
  lemma ExampleBuild()
    ensures Commands("/packit build") == ["build"]
  {
    assert NoMarker("") by { assert !OccursAt("", 0); }
    BuildWellFormed();
    ParseRender("", ["build"]);
    BuildText();
  }

  lemma BuildWellFormed()
    ensures WellFormedArgs(["build"])
  {
    LowerWord("build");
  }

  /** `/packit build` is the marker, a space and the rendering. */
  lemma BuildText()
    ensures "" + Marker + " " + Render(["build"]) == "/packit build"
  {
    assert Render(["build"]) == "build";
  }

  lemma ExampleNoMarker()
    ensures Commands("random text") == []
  {
    assert NoMarker("random text") by {
      forall i | 0 <= i <= |"random text"| ensures !OccursAt("random text", i) {
        if i + |Marker| <= |"random text"| {
          assert "random text"[i] != '/';
        }
      }
    }
  }

  lemma ExampleGlued()
    ensures Commands("/packitbuild") == []
  {
    assert NoMarker("") by { assert !OccursAt("", 0); }
    NonSpaceChar('b');
    GluedMarker("", 'b', "uild");
    assert "" + Marker + ['b'] + "uild" == "/packitbuild";
  }

  lemma RemainderWellFormed()
    ensures WellFormedArgs(["a", "b", "c d"])
  {
    var args := ["a", "b", "c d"];
    LowerWord("a");
    LowerWord("b");
    NonSpaceChar('c');
    assert IsWord(args[2]);
  }

  lemma RemainderRendered()
    ensures Render(["a", "b", "c d"]) == "a b c d"
  {
    assert ["a", "b", "c d"][1..] == ["b", "c d"];
    assert ["b", "c d"][1..] == ["c d"];
  }

  /** `/packit a b c d` is the marker, a space and the rendering. */
  lemma RemainderText()
    ensures "" + Marker + " " + Render(["a", "b", "c d"]) == "/packit a b c d"
  {
    RemainderRendered();
  }

  lemma ExampleRemainder()
    ensures Commands("/packit a b c d") == ["a", "b", "c d"]
  {
    assert NoMarker("") by { assert !OccursAt("", 0); }
    RemainderWellFormed();
    ParseRender("", ["a", "b", "c d"]);
    RemainderText();
  }
}
