/**
 * The team-name key of index.mjs line 49:
 * `name.replace(/\([^)]+\)/, '').trim().toUpperCase()`.
 */
module TeamName {
  import opened Wrappers
  import opened JsText

  /**
   * For `s` starting with `(`: the index of the `)` that closes a non-empty
   * group there, that is the first `)` when it is not right after the `(`.
   */
  function GroupClose(s: string): (r: Option<nat>)
    requires s != [] && s[0] == '('
    ensures r.Some? ==> 2 <= r.value < |s| && s[r.value] == ')' && ')' !in s[1..r.value]
  {
    match IndexOf(s[1..], ')')
    case Some(j) => if j >= 1 then Some(j + 1) else None
    case None => None
  }

  /**
   * A group opened at the start closes at the first `)` after the `(`,
   * unless there is none or it follows the `(` at once: `[^)]+` needs a
   * character.
   */
  lemma GroupCloseExactly(s: string)
    requires s != [] && s[0] == '('
    ensures GroupClose(s).None? <==> ')' !in s[1..] || s[1] == ')'
    ensures GroupClose(s).Some? ==>
              var c := GroupClose(s).value;
              2 <= c < |s| && s[c] == ')' && ')' !in s[1..c]
  {
  }

  /**
   * `replace(/\([^)]+\)/, '')` (no `g` flag): the leftmost `(` that opens a
   * non-empty group starts the one match, which runs to the first `)`
   * after it; only that group is removed.
   */
  function StripFirstGroup(s: string): (r: string)
    ensures |r| <= |s|
    decreases |s|
  {
    if s == [] then []
    else if s[0] == '(' && GroupClose(s).Some? then s[GroupClose(s).value + 1..]
    else [s[0]] + StripFirstGroup(s[1..])
  }

  /** The key a raw team name is filed under. */
  function Normalise(name: string): string {
    Upper(Trim(StripFirstGroup(name)))
  }

  /** Text without a `(` has no group to remove. */
  lemma {:induction false} StripFirstGroupNoOpen(s: string)
    requires '(' !in s
    ensures StripFirstGroup(s) == s
  {
    if s != [] {
      assert '(' !in s[1..];
      StripFirstGroupNoOpen(s[1..]);
    }
  }

  /** Text without a `)` has no group to remove. */
  lemma {:induction false} StripFirstGroupNoClose(s: string)
    requires ')' !in s
    ensures StripFirstGroup(s) == s
  {
    if s != [] {
      if s[0] == '(' {
        assert ')' !in s[1..];
      }
      assert ')' !in s[1..];
      StripFirstGroupNoClose(s[1..]);
    }
  }

  /** Text in front that holds no `(` is kept, and the search goes on after it. */
  lemma {:induction false} StripFirstGroupAfter(w: string, s: string)
    requires '(' !in w
    ensures StripFirstGroup(w + s) == w + StripFirstGroup(s)
  {
    if w != [] {
      assert (w + s)[0] == w[0] && (w + s)[1..] == w[1..] + s;
      assert '(' !in w[1..];
      StripFirstGroupAfter(w[1..], s);
    } else {
      assert w + s == s;
    }
  }

  /**
   * An empty `()` is no match for `[^)]+`: it is kept, and the search goes
   * on after it.
   */
  lemma {:induction false} StripFirstGroupKeepsEmpty(base: string, rest: string)
    requires '(' !in base
    ensures StripFirstGroup(base + "()" + rest) == base + "()" + StripFirstGroup(rest)
  {
    var g := "()" + rest;
    assert base + "()" + rest == base + g;
    StripFirstGroupAfter(base, g);
    GroupCloseExactly(g);
    assert g[1..] == ")" + rest;
    NoGroupHere(g);
    NoGroupHere(")" + rest);
    assert (")" + rest)[1..] == rest;
  }

  /** Where no group starts, the first character is kept and the search moves on. */
  lemma NoGroupHere(s: string)
    requires s != [] && (s[0] != '(' || GroupClose(s).None?)
    ensures StripFirstGroup(s) == [s[0]] + StripFirstGroup(s[1..])
  {
  }

  lemma {:induction false} IndexOfAppend(s: string, w: string, c: char)
    requires c !in w
    ensures IndexOf(s + w, c) == IndexOf(s, c)
  {
    if s == [] {
      assert s + w == w;
    } else {
      assert (s + w)[0] == s[0] && (s + w)[1..] == s[1..] + w;
      IndexOfAppend(s[1..], w, c);
    }
  }

  /** Text at the end that holds no `)` cannot close a group, so it is kept. */
  lemma {:induction false} StripFirstGroupBefore(s: string, w: string)
    requires ')' !in w
    ensures StripFirstGroup(s + w) == StripFirstGroup(s) + w
  {
    if s == [] {
      assert s + w == w;
      StripFirstGroupNoClose(w);
    } else {
      var sw := s + w;
      assert sw[0] == s[0] && sw[1..] == s[1..] + w;
      if s[0] == '(' {
        IndexOfAppend(s[1..], w, ')');
        assert GroupClose(sw) == GroupClose(s);
        if GroupClose(s).Some? {
          assert sw[GroupClose(s).value + 1..] == s[GroupClose(s).value + 1..] + w;
        } else {
          StripFirstGroupBefore(s[1..], w);
        }
      } else {
        StripFirstGroupBefore(s[1..], w);
      }
    }
  }

  /**
   * A non-empty group after text without `(` is the group removed, and
   * everything after it, other groups included, is kept.
   */
  lemma {:induction false} StripFirstGroupRemoves(base: string, note: string, rest: string)
    requires '(' !in base && note != [] && ')' !in note
    ensures StripFirstGroup(base + ['('] + note + [')'] + rest) == base + rest
  {
    var g := ['('] + note + [')'] + rest;
    assert base + ['('] + note + [')'] + rest == base + g;
    StripFirstGroupAfter(base, g);
    assert g[1..] == note + [')'] + rest;
    IndexOfAfter(note, ')', rest);
    assert GroupClose(g) == Some(|note| + 1);
    assert g[|note| + 2..] == rest;
  }

  lemma UpperCharFixes(c: char)
    ensures UpperChar(c) == '(' <==> c == '('
    ensures UpperChar(c) == ')' <==> c == ')'
    ensures IsSpace(UpperChar(c)) <==> IsSpace(c)
    ensures UpperChar(UpperChar(c)) == UpperChar(c)
  {
  }

  lemma UpperSlices(s: string, k: nat)
    requires k <= |s|
    ensures Upper(s)[k..] == Upper(s[k..]) && Upper(s)[..k] == Upper(s[..k])
  {
  }

  lemma {:induction false} IndexOfUpper(s: string, c: char)
    requires c == '(' || c == ')'
    ensures IndexOf(Upper(s), c) == IndexOf(s, c)
  {
    if s != [] {
      UpperCharFixes(s[0]);
      UpperSlices(s, 1);
      IndexOfUpper(s[1..], c);
    }
  }

  /** Upper-casing first or last makes no difference to the group removed. */
  lemma {:induction false} StripFirstGroupUpper(s: string)
    ensures StripFirstGroup(Upper(s)) == Upper(StripFirstGroup(s))
  {
    if s != [] {
      var u := Upper(s);
      UpperCharFixes(s[0]);
      UpperSlices(s, 1);
      if s[0] == '(' {
        IndexOfUpper(s[1..], ')');
        assert GroupClose(u) == GroupClose(s);
        if GroupClose(s).Some? {
          UpperSlices(s, GroupClose(s).value + 1);
        } else {
          StripFirstGroupUpper(s[1..]);
          assert Upper([s[0]] + StripFirstGroup(s[1..])) == [u[0]] + Upper(StripFirstGroup(s[1..]));
        }
      } else {
        StripFirstGroupUpper(s[1..]);
        assert Upper([s[0]] + StripFirstGroup(s[1..])) == [u[0]] + Upper(StripFirstGroup(s[1..]));
      }
    }
  }

  lemma {:induction false} TrimStartUpper(s: string)
    ensures TrimStart(Upper(s)) == Upper(TrimStart(s))
  {
    if s != [] {
      UpperCharFixes(s[0]);
      UpperSlices(s, 1);
      TrimStartUpper(s[1..]);
    }
  }

  lemma {:induction false} TrimEndUpper(s: string)
    ensures TrimEnd(Upper(s)) == Upper(TrimEnd(s))
  {
    if s != [] {
      UpperCharFixes(s[|s| - 1]);
      UpperSlices(s, |s| - 1);
      TrimEndUpper(s[..|s| - 1]);
    }
  }

  /** Names that differ only in letter case get the same key. */
  lemma NormaliseIgnoresCase(s: string, t: string)
    requires Upper(s) == Upper(t)
    ensures Normalise(s) == Normalise(t)
  {
    forall x: string ensures Normalise(x) == Trim(StripFirstGroup(Upper(x))) {
      StripFirstGroupUpper(x);
      TrimStartUpper(StripFirstGroup(x));
      TrimEndUpper(TrimStart(StripFirstGroup(x)));
    }
  }

  /** Names that differ only in surrounding white space get the same key. */
  lemma NormaliseIgnoresPadding(w1: string, s: string, w2: string)
    requires AllSpace(w1) && AllSpace(w2)
    ensures Normalise(w1 + s + w2) == Normalise(s)
  {
    assert '(' !in w1 && ')' !in w2;
    assert w1 + s + w2 == w1 + (s + w2);
    StripFirstGroupAfter(w1, s + w2);
    StripFirstGroupBefore(s, w2);
    assert w1 + (StripFirstGroup(s) + w2) == w1 + StripFirstGroup(s) + w2;
    TrimIgnoresPadding(w1, StripFirstGroup(s), w2);
  }

  /**
   * A name followed by one non-empty parenthetical annotation (and perhaps
   * white space) gets the key of the bare name.
   */
  lemma NormaliseIgnoresAnnotation(base: string, note: string, w: string)
    requires '(' !in base && note != [] && ')' !in note && AllSpace(w)
    ensures Normalise(base + ['('] + note + [')'] + w) == Normalise(base)
  {
    StripFirstGroupRemoves(base, note, w);
    StripFirstGroupNoOpen(base);
    TrimIgnoresTrailing(base, w);
  }
}
