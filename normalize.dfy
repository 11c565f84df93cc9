/** The text normaliser: the two chained `str.replace` calls that turn a pasted NOTAM into one line.
    The web app replaces each line break by a space, the command-line tool deletes it; both then
    make a single pass replacing "  " by " ". */
module Normalize {

  /** `s.replace("\n", sep)`. */
  function ReplaceNewlines(s: string, sep: string): (r: string)
    ensures '\n' !in sep ==> '\n' !in r
    ensures |sep| <= 1 ==> |r| <= |s|
    ensures '\n' !in s ==> r == s
  {
    if s == [] then []
    else (if s[0] == '\n' then sep else [s[0]]) + ReplaceNewlines(s[1..], sep)
  }

  lemma {:induction false} ReplaceNewlinesAppend(a: string, b: string, sep: string)
    ensures ReplaceNewlines(a + b, sep) == ReplaceNewlines(a, sep) + ReplaceNewlines(b, sep)
    decreases |a|
  {
    if a == [] {
      assert a + b == b;
    } else {
      var head := if a[0] == '\n' then sep else [a[0]];
      assert (a + b)[0] == a[0];
      DropFront(a, b, 1);
      assert ReplaceNewlines(a + b, sep) == head + ReplaceNewlines(a[1..] + b, sep);
      ReplaceNewlinesAppend(a[1..], b, sep);
      Regroup(head, ReplaceNewlines(a[1..], sep), ReplaceNewlines(b, sep));
    }
  }

  /** Dropping from the front of a concatenation drops from its first part. */
  lemma DropFront(x: string, y: string, k: nat)
    requires k <= |x|
    ensures (x + y)[k..] == x[k..] + y
  {
  }

  lemma Regroup(x: string, y: string, z: string)
    ensures x + (y + z) == x + y + z
  {
  }

  /** `s.replace("  ", " ")`: Python scans left to right and replaces non-overlapping
      occurrences, so a run of three spaces becomes two, not one. */
  function CollapseDoubleSpaces(s: string): (r: string)
    ensures |r| <= |s|
    ensures '\n' !in s ==> '\n' !in r
    decreases |s|
  {
    if |s| >= 2 && s[0] == ' ' && s[1] == ' ' then " " + CollapseDoubleSpaces(s[2..])
    else if s == [] then []
    else [s[0]] + CollapseDoubleSpaces(s[1..])
  }

  predicate HasDoubleSpace(s: string) {
    exists i :: 0 <= i < |s| - 1 && s[i] == ' ' && s[i + 1] == ' '
  }

  /** The characters of `s` other than the space, in order. */
  function NonSpaces(s: string): string {
    if s == [] then [] else (if s[0] == ' ' then [] else [s[0]]) + NonSpaces(s[1..])
  }

  function Spaces(n: nat): (r: string)
    ensures |r| == n && forall i :: 0 <= i < n ==> r[i] == ' '
  {
    if n == 0 then [] else " " + Spaces(n - 1)
  }

  /** The pass only deletes spaces: every other character survives, in order. */
  lemma {:induction false} CollapseKeepsNonSpaces(s: string)
    ensures NonSpaces(CollapseDoubleSpaces(s)) == NonSpaces(s)
    decreases |s|
  {
    if |s| >= 2 && s[0] == ' ' && s[1] == ' ' {
      CollapseKeepsNonSpaces(s[2..]);
      assert NonSpaces(s) == NonSpaces(s[1..]);
      assert s[1..][1..] == s[2..];
      var t := CollapseDoubleSpaces(s[2..]);
      assert (" " + t)[1..] == t;
    } else if s != [] {
      CollapseKeepsNonSpaces(s[1..]);
      var t := CollapseDoubleSpaces(s[1..]);
      assert ([s[0]] + t)[1..] == t;
    }
  }

  lemma {:induction false} DoubleSpaceInTail(s: string)
    requires s != []
    ensures HasDoubleSpace(s[1..]) ==> HasDoubleSpace(s)
  {
    if HasDoubleSpace(s[1..]) {
      var i :| 0 <= i < |s[1..]| - 1 && s[1..][i] == ' ' && s[1..][i + 1] == ' ';
      assert s[i + 1] == ' ' && s[i + 1 + 1] == ' ';
    }
  }

  /** The pass changes `s` exactly when `s` contains a double space. */
  lemma {:induction false} CollapseFixpoint(s: string)
    ensures CollapseDoubleSpaces(s) == s <==> !HasDoubleSpace(s)
    decreases |s|
  {
    if |s| >= 2 && s[0] == ' ' && s[1] == ' ' {
      assert HasDoubleSpace(s) by { assert s[0] == ' ' && s[0 + 1] == ' '; }
      assert |CollapseDoubleSpaces(s)| < |s|;
    } else if s != [] {
      CollapseFixpoint(s[1..]);
      var t := CollapseDoubleSpaces(s[1..]);
      if HasDoubleSpace(s) {
        var i :| 0 <= i < |s| - 1 && s[i] == ' ' && s[i + 1] == ' ';
        assert i != 0;
        assert s[1..][i - 1] == ' ' && s[1..][i - 1 + 1] == ' ';
        assert HasDoubleSpace(s[1..]);
        assert t != s[1..];
        assert ([s[0]] + t)[1..] == t;
      } else {
        DoubleSpaceInTail(s);
        assert s == [s[0]] + s[1..];
      }
    }
  }

  /** A run of `n` spaces ending the text, or followed by another character, becomes
      ceil(n / 2) spaces. */
  lemma {:induction false} CollapseRun(n: nat, rest: string)
    requires rest == [] || rest[0] != ' '
    ensures CollapseDoubleSpaces(Spaces(n) + rest) == Spaces((n + 1) / 2) + CollapseDoubleSpaces(rest)
    decreases n
  {
    var s := Spaces(n) + rest;
    if n >= 2 {
      assert Spaces(n)[2..] == Spaces(n - 2) by {
        assert Spaces(n) == " " + (" " + Spaces(n - 2));
      }
      DropFront(Spaces(n), rest, 2);
      assert s[0] == ' ' && s[1] == ' ';
      assert CollapseDoubleSpaces(s) == " " + CollapseDoubleSpaces(Spaces(n - 2) + rest);
      CollapseRun(n - 2, rest);
      assert (n + 1) / 2 == (n - 2 + 1) / 2 + 1;
      assert Spaces((n + 1) / 2) == " " + Spaces((n - 2 + 1) / 2);
      Regroup(" ", Spaces((n - 2 + 1) / 2), CollapseDoubleSpaces(rest));
    } else if n == 1 {
      assert s == [' '] + rest;
      assert s[1..] == rest;
    } else {
      assert s == rest;
    }
  }

  /** Normalisation in the web app (streamlit_app.py). */
  function AppNormalize(raw: string): (data: string)
    ensures '\n' !in data
    ensures |data| <= |raw|
  {
    CollapseDoubleSpaces(ReplaceNewlines(raw, " "))
  }

  /** Normalisation in the command-line tool (NOTAM_mapper.py): line breaks are deleted, so the
      last word of a line and the first of the next are glued together. */
  function CliNormalize(raw: string): (data: string)
    ensures '\n' !in data
    ensures |data| <= |raw|
  {
    CollapseDoubleSpaces(ReplaceNewlines(raw, ""))
  }

  /** In the app a line break counts exactly as a space. */
  lemma {:induction false} LineBreakIsSpace(a: string, b: string)
    ensures AppNormalize(a + "\n" + b) == AppNormalize(a + " " + b)
  {
    calc {
      ReplaceNewlines(a + "\n" + b, " ");
      { ReplaceNewlinesAppend(a + "\n", b, " "); }
      ReplaceNewlines(a + "\n", " ") + ReplaceNewlines(b, " ");
      { ReplaceNewlinesAppend(a, "\n", " "); assert ReplaceNewlines("\n", " ") == " "; }
      ReplaceNewlines(a, " ") + " " + ReplaceNewlines(b, " ");
      { ReplaceNewlinesAppend(a, " ", " "); assert ReplaceNewlines(" ", " ") == " "; }
      ReplaceNewlines(a + " ", " ") + ReplaceNewlines(b, " ");
      { ReplaceNewlinesAppend(a + " ", b, " "); }
      ReplaceNewlines(a + " " + b, " ");
    }
  }

  /** In the command-line tool a line break counts as nothing at all. */
  lemma {:induction false} LineBreakIsDeleted(a: string, b: string)
    ensures CliNormalize(a + "\n" + b) == CliNormalize(a + b)
  {
    DeletedNewline(a, b);
  }

  lemma {:induction false} DeletedNewline(a: string, b: string)
    ensures ReplaceNewlines(a + "\n" + b, "") == ReplaceNewlines(a + b, "")
  {
    ReplaceNewlinesAppend(a + "\n", b, "");
    ReplaceNewlinesAppend(a, "\n", "");
    var ra := ReplaceNewlines(a, "");
    assert ReplaceNewlines("\n", "") == "";
    assert ReplaceNewlines(a + "\n", "") == ra + "" == ra;
    ReplaceNewlinesAppend(a, b, "");
  }

  /** On single-line text the two normalisers agree. */
  lemma NormalizersAgreeOnOneLine(raw: string)
    requires '\n' !in raw
    ensures AppNormalize(raw) == CliNormalize(raw) == CollapseDoubleSpaces(raw)
  {
  }

  /** Three spaces leave two. */
  lemma {:induction false} ThreeSpacesLeaveTwo(a: string, b: string)
    requires a == [] || a[|a| - 1] != ' '
    requires b == [] || b[0] != ' '
    ensures CollapseDoubleSpaces(a + "   " + b) == CollapseDoubleSpaces(a) + "  " + CollapseDoubleSpaces(b)
  {
    var run := "   " + b;
    Regroup(a, "   ", b);
    CollapseAfterNonSpace(a, run);
    assert Spaces(3) == "   ";
    CollapseRun(3, b);
    assert Spaces(2) == "  ";
    Regroup(CollapseDoubleSpaces(a), "  ", CollapseDoubleSpaces(b));
  }

  /** When `a` does not end in a space, the pass over `a + t` treats `a` on its own. */
  lemma {:induction false} CollapseAfterNonSpace(a: string, t: string)
    requires a == [] || a[|a| - 1] != ' '
    ensures CollapseDoubleSpaces(a + t) == CollapseDoubleSpaces(a) + CollapseDoubleSpaces(t)
    decreases |a|
  {
    var s := a + t;
    if a == [] {
      assert s == t;
    } else {
      // the pass consumes k characters of `a` and emits `out` for them
      var k: nat := if |a| >= 2 && a[0] == ' ' && a[1] == ' ' then 2 else 1;
      var out := if k == 2 then " " else [a[0]];
      assert k == 2 ==> |a| >= 3;
      assert s[0] == a[0] && (|a| >= 2 ==> s[1] == a[1]);
      assert s[k..] == a[k..] + t;
      assert CollapseDoubleSpaces(s) == out + CollapseDoubleSpaces(s[k..]);
      assert CollapseDoubleSpaces(a) == out + CollapseDoubleSpaces(a[k..]);
      if a[k..] != [] {
        assert a[k..][|a[k..]| - 1] == a[|a| - 1];
      }
      CollapseAfterNonSpace(a[k..], t);
      Regroup(out, CollapseDoubleSpaces(a[k..]), CollapseDoubleSpaces(t));
    }
  }
}
