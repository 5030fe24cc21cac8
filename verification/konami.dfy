/** The keyboard easter egg of script.js: a sliding window over the names of
    the last ten keys pressed, compared after every key press with a fixed
    ten-key target. The comparison is between the two CONCATENATIONS
    (`join('')`), not between the two sequences element by element. */
module KonamiCode {

  /** How many key names the window keeps (`slice(-10)`). */
  const WindowSize: nat := 10

  /** The target sequence: up, up, down, down, left, right, left, right, b, a. */
  const Target: seq<string> :=
    ["ArrowUp", "ArrowUp", "ArrowDown", "ArrowDown", "ArrowLeft",
     "ArrowRight", "ArrowLeft", "ArrowRight", "b", "a"]

  /** `Array.prototype.join('')` over key names. */
  function Join(keys: seq<string>): string
  {
    if |keys| == 0 then "" else keys[0] + Join(keys[1..])
  }

  /** The last `n` elements of `s` (all of `s` when it is shorter), as
      `s.slice(-n)` for a positive `n`. */
  function LastN(s: seq<string>, n: nat): (r: seq<string>)
    ensures |r| == if |s| <= n then |s| else n
    ensures r == s[|s| - |r|..]
  {
    if |s| <= n then s else s[|s| - n..]
  }

  /** The match test of the keydown handler. */
  predicate Matches(window: seq<string>)
  {
    Join(window) == Join(Target)
  }

  /** The window update of the keydown handler: push, then keep the last ten. */
  function Push(window: seq<string>, key: string): (w: seq<string>)
    requires |window| <= WindowSize
    ensures |w| <= WindowSize
    ensures |w| > 0 && w[|w| - 1] == key
    ensures |window| < WindowSize ==> w == window + [key]
    ensures |window| == WindowSize ==> w == window[1..] + [key]
  {
    LastN(window + [key], WindowSize)
  }

  /** What one keydown event leaves behind. */
  datatype KeyOutcome = KeyOutcome(window: seq<string>, fired: bool)

  /** The keydown handler: push the key, keep the last ten, test the match.
      `fired` says whether the effect is activated by this key press. */
  function KeyDown(window: seq<string>, key: string): (o: KeyOutcome)
    requires |window| <= WindowSize
    ensures o.window == Push(window, key)
    ensures o.fired <==> Matches(o.window)
    // completing the target always fires
    ensures (|window| == WindowSize && window[1..] == Target[..WindowSize - 1] &&
             key == Target[WindowSize - 1]) ==> o.fired
    // the key after a match never fires again, whatever it is
    ensures window == Target ==> !o.fired
  {
    var w := Push(window, key);
    if window == Target then
      assert w == Target[1..] + [key];
      SuffixThenAnythingNeverMatches(1, [key]);
      KeyOutcome(w, Matches(w))
    else
      if |window| == WindowSize && window[1..] == Target[..WindowSize - 1] &&
        key == Target[WindowSize - 1] then
        CompletesRun(window, key, Target);
        KeyOutcome(w, Matches(w))
      else
        KeyOutcome(w, Matches(w))
  }

  /** A full window holding all but the last key of a run, followed by that
      last key, slides onto the run. */
  lemma CompletesRun(window: seq<string>, key: string, run: seq<string>)
    requires |window| == |run| == WindowSize
    requires window[1..] == run[..WindowSize - 1] && key == run[WindowSize - 1]
    ensures Push(window, key) == run
  {
    assert run == run[..WindowSize - 1] + [run[WindowSize - 1]];
  }

  /** The window after a whole sequence of key presses. */
  function Feed(window: seq<string>, keys: seq<string>): (w: seq<string>)
    requires |window| <= WindowSize
    ensures |w| <= WindowSize
    decreases |keys|
  {
    if |keys| == 0 then window
    else Push(Feed(window, keys[..|keys| - 1]), keys[|keys| - 1])
  }

  /** Whether the keydown handler fires on the last key press of `keys`. */
  predicate FiresOnLast(window: seq<string>, keys: seq<string>)
    requires |window| <= WindowSize
  {
    |keys| > 0 && KeyDown(Feed(window, keys[..|keys| - 1]), keys[|keys| - 1]).fired
  }

  /** The handler fires on the last key exactly when the window after all
      the keys matches. */
  lemma FiresOnLastIsMatchOfFeed(window: seq<string>, keys: seq<string>)
    requires |window| <= WindowSize && |keys| > 0
    ensures FiresOnLast(window, keys) <==> Matches(Feed(window, keys))
  {
  }

  // ---------------------------------------------------------------------
  // Join

  lemma {:induction false} JoinAppend(a: seq<string>, b: seq<string>)
    ensures Join(a + b) == Join(a) + Join(b)
    decreases |a|
  {
    if |a| == 0 {
      assert a + b == b;
    } else {
      assert (a + b)[1..] == a[1..] + b;
      JoinAppend(a[1..], b);
    }
  }

  /** Two key sequences that agree everywhere except at one position join to
      different strings. */
  lemma JoinSeparatesOneChange(a: seq<string>, x: string, y: string, b: seq<string>)
    requires x != y
    ensures Join(a + [x] + b) != Join(a + [y] + b)
  {
    JoinAroundOne(a, x, b);
    JoinAroundOne(a, y, b);
    MiddleSeparates(Join(a), x, y, Join(b));
  }

  /** Join over a sequence with one distinguished key in the middle. */
  lemma JoinAroundOne(a: seq<string>, x: string, b: seq<string>)
    ensures Join(a + [x] + b) == Join(a) + x + Join(b)
  {
    JoinAppend(a + [x], b);
    JoinAppend(a, [x]);
    assert Join([x]) == x by {
      assert [x][1..] == [];
      assert x + "" == x;
    }
  }

  /** Strings that differ only in a middle part are different. */
  lemma MiddleSeparates(p: string, x: string, y: string, q: string)
    requires x != y
    ensures p + x + q != p + y + q
  {
    var sx, sy := p + x + q, p + y + q;
    if |x| != |y| {
      assert |sx| != |sy|;
    } else {
      var k :| 0 <= k < |x| && x[k] != y[k];
      assert sx[|p| + k] == x[k];
      assert sy[|p| + k] == y[k];
    }
  }

  // ---------------------------------------------------------------------
  // The window

  lemma PushLastN(s: seq<string>, key: string)
    ensures LastN(LastN(s, WindowSize) + [key], WindowSize) == LastN(s + [key], WindowSize)
  {
  }

  /** After any sequence of key presses the window is exactly the last
      min(n, 10) keys seen, in order. */
  lemma {:induction false} FeedKeepsLastTen(window: seq<string>, keys: seq<string>)
    requires |window| <= WindowSize
    ensures Feed(window, keys) == LastN(window + keys, WindowSize)
    decreases |keys|
  {
    if |keys| == 0 {
      assert window + keys == window;
    } else {
      var init := keys[..|keys| - 1];
      var key := keys[|keys| - 1];
      assert window + keys == (window + init) + [key];
      assert Feed(window, keys) == Push(Feed(window, init), key);
      FeedKeepsLastTen(window, init);
      PushLastN(window + init, key);
    }
  }

  /** Started from an empty window, the window is the last min(n, 10) keys. */
  lemma WindowIsRecentKeys(keys: seq<string>)
    ensures |keys| <= WindowSize ==> Feed([], keys) == keys
    ensures |keys| > WindowSize ==> Feed([], keys) == keys[|keys| - WindowSize..]
  {
    var empty: seq<string> := [];
    FeedKeepsLastTen(empty, keys);
    assert empty + keys == keys;
    LastNCases(keys);
  }

  lemma LastNCases(s: seq<string>)
    ensures |s| <= WindowSize ==> LastN(s, WindowSize) == s
    ensures |s| > WindowSize ==> LastN(s, WindowSize) == s[|s| - WindowSize..]
  {
  }

  // ---------------------------------------------------------------------
  // The match

  /** Typing the ten target keys in order fires, whatever came before. */
  lemma TargetAlwaysFires(window: seq<string>)
    requires |window| <= WindowSize
    ensures Feed(window, Target) == Target
    ensures FiresOnLast(window, Target)
  {
    FullRunFillsWindow(window, Target);
    FiresOnLastIsMatchOfFeed(window, Target);
  }

  /** Ten key presses replace the whole window by those ten keys. */
  lemma FullRunFillsWindow(window: seq<string>, run: seq<string>)
    requires |window| <= WindowSize && |run| == WindowSize
    ensures Feed(window, run) == run
  {
    FeedKeepsLastTen(window, run);
    assert (window + run)[|window|..] == run;
  }

  /** A full window that differs from the target in exactly one key does not
      fire. */
  lemma OneKeyAlteredNeverMatches(window: seq<string>, i: nat)
    requires |window| == |Target| && i < |Target|
    requires window[i] != Target[i]
    requires forall j :: 0 <= j < |Target| && j != i ==> window[j] == Target[j]
    ensures !Matches(window)
  {
    var a, b := Target[..i], Target[i + 1..];
    assert window == a + [window[i]] + b;
    assert Target == a + [Target[i]] + b;
    JoinSeparatesOneChange(a, window[i], Target[i], b);
  }

  /** The characters of the first key open the joined string. */
  lemma JoinCharOfFirst(keys: seq<string>, i: nat)
    requires |keys| > 0 && i < |keys[0]|
    ensures i < |Join(keys)| && Join(keys)[i] == keys[0][i]
  {
  }

  /** The characters of the second key follow those of the first. */
  lemma JoinCharOfSecond(keys: seq<string>, i: nat)
    requires |keys| > 1 && i < |keys[1]|
    ensures |keys[0]| + i < |Join(keys)| && Join(keys)[|keys[0]| + i] == keys[1][i]
  {
    JoinCharOfFirst(keys[1..], i);
  }

  /** The first two keys of a joined sequence. */
  lemma JoinFirstTwo(keys: seq<string>)
    requires |keys| >= 2
    ensures Join(keys) == keys[0] + keys[1] + Join(keys[2..])
  {
    assert keys[1..][1..] == keys[2..];
  }

  /** A proper suffix of the target, followed by any keys whatever, never
      matches: once the window has slid past the first target key, the match
      cannot fire again until ten fresh keys have been pressed. */
  lemma SuffixThenAnythingNeverMatches(j: nat, extra: seq<string>)
    requires 1 <= j < |Target|
    ensures !Matches(Target[j..] + extra)
  {
    if j == 1 {
      SecondKeyOnNeverMatches(extra);
    } else if j < 8 {
      ArrowKeyOnNeverMatches(j, extra);
    } else {
      LetterKeyOnNeverMatches(j, extra);
    }
  }

  /** Starting at the second key: "ArrowUpArrowDown..." against
      "ArrowUpArrowUp...", apart at character 12. */
  lemma SecondKeyOnNeverMatches(extra: seq<string>)
    ensures !Matches(Target[1..] + extra)
  {
    var s := Target[1..] + extra;
    assert s[0] == Target[1] && s[1] == Target[2];
    JoinCharOfSecond(s, 5);
    JoinCharOfSecond(Target, 5);
    assert Join(s)[12] != Join(Target)[12];
  }

  /** Starting at a later arrow key: its sixth character is not the `U` of
      "ArrowUp". */
  lemma ArrowKeyOnNeverMatches(j: nat, extra: seq<string>)
    requires 2 <= j < 8
    ensures !Matches(Target[j..] + extra)
  {
    var s := Target[j..] + extra;
    assert s[0] == Target[j];
    assert Target[j][5] != Target[0][5] by {
      if j == 2 || j == 3 {
        assert Target[j] == "ArrowDown";
      } else if j == 4 || j == 6 {
        assert Target[j] == "ArrowLeft";
      } else {
        assert Target[j] == "ArrowRight";
      }
    }
    FirstKeyDecides(s, Target, 5);
  }

  /** Sequences whose first keys differ at a position both have join to
      different strings. */
  lemma FirstKeyDecides(s: seq<string>, t: seq<string>, i: nat)
    requires |s| > 0 && |t| > 0 && i < |s[0]| && i < |t[0]|
    requires s[0][i] != t[0][i]
    ensures Join(s) != Join(t)
  {
    JoinCharOfFirst(s, i);
    JoinCharOfFirst(t, i);
  }

  /** Starting at `b` or `a`: neither is the `A` of "ArrowUp". */
  lemma LetterKeyOnNeverMatches(j: nat, extra: seq<string>)
    requires 8 <= j < |Target|
    ensures !Matches(Target[j..] + extra)
  {
    var s := Target[j..] + extra;
    assert s[0] == Target[j];
    JoinCharOfFirst(s, 0);
    JoinCharOfFirst(Target, 0);
    assert Join(s)[0] != Join(Target)[0];
  }

  /** A proper prefix whose next key has a non-empty name joins to a
      strictly shorter string. */
  lemma ProperPrefixJoinsShorter(keys: seq<string>, k: nat)
    requires k < |keys| && keys[k] != ""
    ensures |Join(keys[..k])| < |Join(keys)|
  {
    JoinAppend(keys[..k], keys[k..]);
    assert keys[..k] + keys[k..] == keys;
    assert Join(keys[k..]) == keys[k] + Join(keys[k + 1..]) by {
      assert keys[k..][1..] == keys[k + 1..];
    }
  }

  /** From a fresh page, the window matches after the tenth target key and
      after no earlier one. */
  lemma FreshTargetMatchesOnlyAtEnd(k: nat)
    requires 1 <= k <= |Target|
    ensures Matches(Feed([], Target[..k])) <==> k == |Target|
  {
    assert forall i :: 0 <= i < |Target| ==> Target[i] != "";
    FreshRunMatchesOnlyAtEnd(Target, k);
  }

  /** Typing a run of ten non-empty key names on a fresh page gives a window
      joined like the run only once the whole run is typed. */
  lemma FreshRunMatchesOnlyAtEnd(run: seq<string>, k: nat)
    requires |run| == WindowSize && 1 <= k <= |run|
    requires forall i :: 0 <= i < |run| ==> run[i] != ""
    ensures Join(Feed([], run[..k])) == Join(run) <==> k == |run|
  {
    WindowIsRecentKeys(run[..k]);
    if k < |run| {
      ProperPrefixJoinsShorter(run, k);
    } else {
      assert run[..k] == run;
    }
  }

  /** From a fresh page, typing the target fires on the tenth key and on no
      earlier one. */
  lemma FreshTargetFiresOnlyAtEnd(k: nat)
    requires 1 <= k <= |Target|
    ensures FiresOnLast([], Target[..k]) <==> k == |Target|
  {
    FreshTargetMatchesOnlyAtEnd(k);
    FiresOnLastIsMatchOfFeed([], Target[..k]);
  }

  /** Ten keys followed by at most ten more leave the tail of the ten and
      the extra keys in the window, whatever came before. */
  lemma LastTenAfterFullRun(window: seq<string>, run: seq<string>, extra: seq<string>)
    requires |run| == WindowSize && |extra| <= WindowSize
    ensures LastN(window + (run + extra), WindowSize) == run[|extra|..] + extra
  {
    var all := window + (run + extra);
    var tail := all[|all| - WindowSize..];
    assert tail == run[|extra|..] + extra by {
      forall i | 0 <= i < WindowSize
        ensures tail[i] == (run[|extra|..] + extra)[i]
      {
        if i < WindowSize - |extra| {
          assert tail[i] == run[|extra| + i];
        } else {
          assert tail[i] == extra[i - (WindowSize - |extra|)];
        }
      }
    }
  }

  /** After the target, the window does not match again within nine keys. */
  lemma NoRematchWithinNineKeys(window: seq<string>, extra: seq<string>)
    requires |window| <= WindowSize
    requires 1 <= |extra| < WindowSize
    ensures !Matches(Feed(window, Target + extra))
  {
    FeedKeepsLastTen(window, Target + extra);
    LastTenAfterFullRun(window, Target, extra);
    SuffixThenAnythingNeverMatches(|extra|, extra);
  }

  /** After the target has been typed, none of the next nine key presses
      fires again, whatever they are. */
  lemma NoRefireWithinNineKeys(window: seq<string>, extra: seq<string>)
    requires |window| <= WindowSize
    requires 1 <= |extra| < WindowSize
    ensures !FiresOnLast(window, Target + extra)
  {
    NoRematchWithinNineKeys(window, extra);
    FiresOnLastIsMatchOfFeed(window, Target + extra);
  }

  /** The test is on the concatenation, so it is weaker than comparing the
      windows element by element: merging two neighbouring key names and
      leaving an empty name behind gives a different ten-key window that
      matches whenever the original does (the target itself included). */
  lemma JoinedMatchIsNotElementwise(w: seq<string>, i: nat)
    requires |w| == WindowSize && i + 1 < |w| && w[i + 1] != ""
    requires Matches(w)
    ensures var v := w[..i] + [w[i] + w[i + 1], ""] + w[i + 2..];
      |v| == WindowSize && v != w && Matches(v)
  {
    RegroupKeepsJoin(w, i);
  }

  /** Merging key `i` into key `i + 1`'s place, leaving an empty name behind,
      keeps the length and the joined string but changes the sequence. */
  lemma RegroupKeepsJoin(w: seq<string>, i: nat)
    requires i + 1 < |w| && w[i + 1] != ""
    ensures var v := w[..i] + [w[i] + w[i + 1], ""] + w[i + 2..];
      |v| == |w| && v != w && Join(v) == Join(w)
  {
    var v := w[..i] + [w[i] + w[i + 1], ""] + w[i + 2..];
    assert v[i + 1] != w[i + 1];
    assert w == w[..i] + ([w[i], w[i + 1]] + w[i + 2..]);
    assert v == w[..i] + ([w[i] + w[i + 1], ""] + w[i + 2..]);
    JoinAppend(w[..i], [w[i], w[i + 1]] + w[i + 2..]);
    JoinAppend(w[..i], [w[i] + w[i + 1], ""] + w[i + 2..]);
    MergeFirstTwo(w[i], w[i + 1], w[i + 2..]);
  }

  /** Merging the first two key names, and leaving an empty one in the
      second place, does not change the joined string. */
  lemma MergeFirstTwo(x: string, y: string, rest: seq<string>)
    ensures Join([x + y, ""] + rest) == Join([x, y] + rest)
  {
    JoinFirstTwo([x + y, ""] + rest);
    JoinFirstTwo([x, y] + rest);
    assert ([x + y, ""] + rest)[2..] == rest;
    assert ([x, y] + rest)[2..] == rest;
    assert x + y + "" == x + y;
  }
}
