/** SQLite's LIKE operator as the search handler uses it: no ESCAPE clause,
    `%` matches any run of characters, `_` exactly one, and letters compare
    without regard to ASCII case (the engine's default; other letters are
    compared as they are). */
module Like {

  /** ASCII upper case to lower case; every other character unchanged. */
  function Fold(c: char): (f: char)
    ensures 'A' <= c <= 'Z' ==> 'a' <= f <= 'z'
    ensures !('A' <= c <= 'Z') ==> f == c
  {
    if 'A' <= c <= 'Z' then (c as int + 32) as char else c
  }

  function FoldAll(s: string): (r: string)
    ensures |r| == |s|
    ensures forall i :: 0 <= i < |s| ==> r[i] == Fold(s[i])
  {
    if s == [] then [] else [Fold(s[0])] + FoldAll(s[1..])
  }

  /** Does the pattern character `p` (not `%`) match the text character `c`? */
  predicate CharMatches(p: char, c: char) {
    p == '_' || Fold(p) == Fold(c)
  }

  /** `text LIKE pattern`. */
  predicate Like(pattern: string, text: string)
    decreases |pattern|, |text|
  {
    if pattern == [] then text == []
    else if pattern[0] == '%' then
      Like(pattern[1..], text) || (text != [] && Like(pattern, text[1..]))
    else
      text != [] && CharMatches(pattern[0], text[0]) && Like(pattern[1..], text[1..])
  }

  /** A keyword the user typed holds no `%` and no `_`. */
  ghost predicate PlainKeyword(k: string) {
    forall i :: 0 <= i < |k| ==> k[i] != '%' && k[i] != '_'
  }

  /** `k` occurs somewhere in `t`. */
  predicate Infix(k: string, t: string) {
    k <= t || (t != [] && Infix(k, t[1..]))
  }

  /** `%` matches anything. */
  lemma {:induction false} PercentMatchesAll(t: string)
    ensures Like("%", t)
  {
    if t != [] {
      PercentMatchesAll(t[1..]);
    }
  }

  /** For a plain keyword, `t LIKE k%` holds exactly when `t` starts with `k`,
      ASCII case aside. */
  lemma {:induction false} PrefixPattern(k: string, t: string)
    requires PlainKeyword(k)
    ensures Like(k + "%", t) <==> FoldAll(k) <= FoldAll(t)
  {
    if k == [] {
      assert k + "%" == "%";
      PercentMatchesAll(t);
    } else {
      assert (k + "%")[0] == k[0];
      assert (k + "%")[1..] == k[1..] + "%";
      assert PlainKeyword(k[1..]) by {
        forall i | 0 <= i < |k[1..]| ensures k[1..][i] != '%' && k[1..][i] != '_' {
          assert k[1..][i] == k[i + 1];
        }
      }
      if t != [] {
        PrefixPattern(k[1..], t[1..]);
        assert FoldAll(k) == [Fold(k[0])] + FoldAll(k[1..]);
        assert FoldAll(t) == [Fold(t[0])] + FoldAll(t[1..]);
      }
    }
  }

  /** The pattern `%k%` built by the search handler: for a keyword without
      wildcards it matches exactly the texts containing the keyword, ASCII
      case aside. */
  lemma {:induction false} InfixPattern(k: string, t: string)
    requires PlainKeyword(k)
    ensures Like("%" + k + "%", t) <==> Infix(FoldAll(k), FoldAll(t))
  {
    var p := "%" + k + "%";
    assert p[0] == '%' && p[1..] == k + "%";
    PrefixPattern(k, t);
    if t != [] {
      InfixPattern(k, t[1..]);
      assert FoldAll(t)[1..] == FoldAll(t[1..]);
    }
  }

  /** An empty keyword gives the pattern `%%`, which matches every text. */
  lemma EmptyKeywordMatchesAll(t: string)
    ensures Like("%" + "" + "%", t)
  {
  }
}
