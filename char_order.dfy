/**
 * The key-character comparator of the trie (`compare_no_case`) and the two
 * helpers built on it (`is_key_less`, `is_key_eq`), plus the order on whole
 * keys that a sorted trie induces.
 *
 * `compare_no_case` lower-cases both characters with `tolower` and compares
 * the results. The fold below is `tolower` of the "C" locale (ASCII letters
 * only); the lemmas only use that `Less` compares fold values, so they hold
 * for any fold.
 */
module CharOrder {

  /** `tolower` in the "C" locale, as an ordinal. */
  function Fold(c: char): int
  {
    if 'A' <= c <= 'Z' then c as int + 32 else c as int
  }

  /** `compare_no_case::operator()`: the strict order on key characters. */
  predicate Less(a: char, b: char)
  {
    Fold(a) < Fold(b)
  }

  /** `is_key_less`: identical characters are never less; otherwise the comparator decides. */
  function IsKeyLess(a: char, b: char): (r: bool)
    ensures r <==> Fold(a) < Fold(b)
    ensures r ==> a != b && !IsKeyEq(a, b)
  {
    if a == b then false else Less(a, b)
  }

  /** `is_key_eq`: identical characters, or characters neither of which is less than the other. */
  function IsKeyEq(a: char, b: char): (r: bool)
    ensures r <==> Fold(a) == Fold(b)
    ensures r <==> !Less(a, b) && !Less(b, a)
  {
    if a == b then true else !Less(a, b) && !Less(b, a)
  }

  /**
   * The order the trie keeps its keys in: lexicographic under the comparator,
   * a proper prefix sorting before its extensions.
   */
  predicate KeyLess(s: seq<char>, t: seq<char>)
    decreases |s|
  {
    if s == [] then t != []
    else t != [] && (Less(s[0], t[0]) || (IsKeyEq(s[0], t[0]) && KeyLess(s[1..], t[1..])))
  }

  /** Keys that compare equal character by character. */
  predicate KeyEq(s: seq<char>, t: seq<char>)
  {
    |s| == |t| && forall i | 0 <= i < |s| :: IsKeyEq(s[i], t[i])
  }

  lemma {:induction false} KeyLessIrreflexive(s: seq<char>, t: seq<char>)
    requires KeyEq(s, t)
    ensures !KeyLess(s, t) && !KeyLess(t, s)
    decreases |s|
  {
    if s != [] {
      assert KeyEq(s[1..], t[1..]) by {
        forall i | 0 <= i < |s| - 1 ensures IsKeyEq(s[1..][i], t[1..][i]) {
          assert s[1..][i] == s[i + 1];
        }
      }
      KeyLessIrreflexive(s[1..], t[1..]);
    }
  }

  lemma {:induction false} KeyLessTransitive(s: seq<char>, t: seq<char>, u: seq<char>)
    requires KeyLess(s, t) && KeyLess(t, u)
    ensures KeyLess(s, u)
    decreases |s|
  {
    if s != [] {
      assert t != [] && u != [];
      if IsKeyEq(s[0], t[0]) && IsKeyEq(t[0], u[0]) {
        KeyLessTransitive(s[1..], t[1..], u[1..]);
      }
    }
  }

  /** Any two keys are ordered one way, the other way, or compare equal. */
  lemma {:induction false} KeyTotal(s: seq<char>, t: seq<char>)
    ensures KeyLess(s, t) || KeyEq(s, t) || KeyLess(t, s)
    decreases |s|
  {
    if s != [] && t != [] && IsKeyEq(s[0], t[0]) {
      KeyTotal(s[1..], t[1..]);
      if KeyEq(s[1..], t[1..]) {
        assert KeyEq(s, t) by {
          forall i | 0 <= i < |s| ensures IsKeyEq(s[i], t[i]) {
            if i > 0 { assert s[i] == s[1..][i - 1] && t[i] == t[1..][i - 1]; }
          }
        }
      }
    }
  }

  /** A proper prefix sorts before its extensions. */
  lemma {:induction false} PrefixLess(s: seq<char>, t: seq<char>)
    requires t != []
    ensures KeyLess(s, s + t)
    decreases |s|
  {
    if s != [] {
      assert (s + t)[1..] == s[1..] + t;
      PrefixLess(s[1..], t);
    }
  }

  /**
   * Two keys sharing an equal prefix `p` are ordered by their first
   * characters after it.
   */
  lemma {:induction false} DivergeLess(p: seq<char>, a: char, b: char, s: seq<char>, t: seq<char>)
    requires Less(a, b)
    ensures KeyLess(p + [a] + s, p + [b] + t)
    decreases |p|
  {
    if p != [] {
      assert (p + [a] + s)[1..] == p[1..] + [a] + s;
      assert (p + [b] + t)[1..] == p[1..] + [b] + t;
      DivergeLess(p[1..], a, b, s, t);
    }
  }

  /** A key comparing equal to one below `u` is itself below `u`. */
  lemma {:induction false} KeyEqLess(s: seq<char>, t: seq<char>, u: seq<char>)
    requires KeyEq(s, t) && KeyLess(t, u)
    ensures KeyLess(s, u)
    decreases |s|
  {
    if s != [] {
      assert IsKeyEq(s[0], t[0]);
      if IsKeyEq(t[0], u[0]) {
        assert KeyEq(s[1..], t[1..]) by {
          forall i | 0 <= i < |s| - 1 ensures IsKeyEq(s[1..][i], t[1..][i]) {
            assert s[1..][i] == s[i + 1] && t[1..][i] == t[i + 1];
          }
        }
        KeyEqLess(s[1..], t[1..], u[1..]);
      }
    }
  }
}
