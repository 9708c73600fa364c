/**
 * The parts of JavaScript's String.prototype that the site roster relies on:
 * `trim`, `replace(/\s+/g, '')`, `toLowerCase`, `includes`, `indexOf` and
 * `replace` with a string pattern.
 */
module Text {
  import opened Prelude

  /**
   * The characters `\s` matches and `trim` removes: ECMAScript's WhiteSpace
   * (tab, vertical tab, form feed, space, no-break space, the byte order mark
   * and the space separators of Unicode) and LineTerminator (LF, CR, the line
   * and paragraph separators).
   */
  predicate IsSpace(c: char) {
    c == '\t' || c == '\n' || c == '\U{000B}' || c == '\U{000C}' || c == '\r' || c == ' ' ||
    c == '\U{00A0}' || c == '\U{1680}' || ('\U{2000}' <= c <= '\U{200A}') ||
    c == '\U{2028}' || c == '\U{2029}' || c == '\U{202F}' || c == '\U{205F}' ||
    c == '\U{3000}' || c == '\U{FEFF}'
  }

  predicate IsUpper(c: char) {
    'A' <= c <= 'Z'
  }

  predicate NoSpace(s: string) {
    forall i :: 0 <= i < |s| ==> !IsSpace(s[i])
  }

  predicate NoUpper(s: string) {
    forall i :: 0 <= i < |s| ==> !IsUpper(s[i])
  }

  /** Lower-casing of one character, restricted to the ASCII letters. */
  function Lower(c: char): (r: char)
    ensures !IsUpper(r)
    ensures IsSpace(r) == IsSpace(c)
    ensures !IsUpper(c) ==> r == c
  {
    if IsUpper(c) then (c as int + 32) as char else c
  }

  /** `toLowerCase`, with ASCII case mapping. */
  function ToLower(s: string): string
    decreases |s|
  {
    if s == [] then [] else [Lower(s[0])] + ToLower(s[1..])
  }

  /** Lower-casing works character by character. */
  lemma {:induction false} ToLowerAt(s: string)
    ensures |ToLower(s)| == |s|
    ensures forall i :: 0 <= i < |s| ==> ToLower(s)[i] == Lower(s[i])
    decreases |s|
  {
    if s != [] {
      ToLowerAt(s[1..]);
    }
  }

  lemma ToLowerNoUpper(s: string)
    ensures NoUpper(ToLower(s))
    ensures NoSpace(s) ==> NoSpace(ToLower(s))
  {
    ToLowerAt(s);
  }

  /** Lower-casing a string without capitals leaves it as it is. */
  lemma ToLowerOfLower(s: string)
    requires NoUpper(s)
    ensures ToLower(s) == s
  {
    ToLowerAt(s);
  }

  /** `trimStart`: the suffix left after dropping leading white space. */
  function TrimStart(s: string): (r: string)
    ensures |r| <= |s| && r == s[|s| - |r|..]
    ensures forall i :: 0 <= i < |s| - |r| ==> IsSpace(s[i])
    ensures r == [] || !IsSpace(r[0])
    decreases |s|
  {
    if s != [] && IsSpace(s[0]) then TrimStart(s[1..]) else s
  }

  /** `trimEnd`: the prefix left after dropping trailing white space. */
  function TrimEnd(s: string): (r: string)
    ensures |r| <= |s| && r == s[..|r|]
    ensures forall i :: |r| <= i < |s| ==> IsSpace(s[i])
    ensures r == [] || !IsSpace(r[|r| - 1])
    decreases |s|
  {
    if s != [] && IsSpace(s[|s| - 1]) then TrimEnd(s[..|s| - 1]) else s
  }

  /** `trim`. */
  function Trim(s: string): (r: string)
    ensures r == [] || (!IsSpace(r[0]) && !IsSpace(r[|r| - 1]))
  {
    TrimEnd(TrimStart(s))
  }

  /** Trimming removes white space at both ends and nothing else. */
  lemma TrimBounds(s: string)
    ensures var k := |s| - |TrimStart(s)|;
      k + |Trim(s)| <= |s| && Trim(s) == s[k..k + |Trim(s)|] &&
      (forall i :: 0 <= i < k ==> IsSpace(s[i])) &&
      (forall i :: k + |Trim(s)| <= i < |s| ==> IsSpace(s[i]))
  {
    var t := TrimStart(s);
    var k := |s| - |t|;
    assert t == s[k..];
    TrimEndWithin(s, k, TrimEnd(t));
  }

  /** The trimmed end `r` of the suffix `s[k..]`, read back in `s`. */
  lemma TrimEndWithin(s: string, k: nat, r: string)
    requires k <= |s| && r == TrimEnd(s[k..])
    ensures k + |r| <= |s| && r == s[k..k + |r|]
    ensures forall i :: k + |r| <= i < |s| ==> IsSpace(s[i])
  {
    var t := s[k..];
    assert r == t[..|r|];
    assert t[..|r|] == s[k..k + |r|];
    forall i | k + |r| <= i < |s|
      ensures IsSpace(s[i])
    {
      assert s[i] == t[i - k];
    }
  }

  /** A string trims to nothing exactly when it is all white space. */
  lemma TrimEmptyIff(s: string)
    ensures Trim(s) == [] <==> forall i :: 0 <= i < |s| ==> IsSpace(s[i])
  {
    TrimBounds(s);
  }

  lemma TrimOfClean(s: string)
    requires NoSpace(s)
    ensures Trim(s) == s
  {
  }

  lemma TrimIdempotent(s: string)
    ensures Trim(Trim(s)) == Trim(s)
  {
  }

  /** `replace(/\s+/g, '')`: every white-space character is deleted. */
  function StripSpaces(s: string): (r: string)
    ensures |r| <= |s|
    decreases |s|
  {
    if s == [] then []
    else (if IsSpace(s[0]) then [] else [s[0]]) + StripSpaces(s[1..])
  }

  /** No white space is left. */
  lemma {:induction false} StripSpacesNoSpace(s: string)
    ensures NoSpace(StripSpaces(s))
    decreases |s|
  {
    if s != [] {
      StripSpacesNoSpace(s[1..]);
      var head := if IsSpace(s[0]) then [] else [s[0]];
      assert StripSpaces(s) == head + StripSpaces(s[1..]);
    }
  }

  /** A string without white space is kept whole. */
  lemma {:induction false} StripSpacesClean(s: string)
    requires NoSpace(s)
    ensures StripSpaces(s) == s
    decreases |s|
  {
    if s != [] {
      assert NoSpace(s[1..]) by {
        forall i | 0 <= i < |s[1..]| ensures !IsSpace(s[1..][i]) {
          assert s[1..][i] == s[i + 1];
        }
      }
      StripSpacesClean(s[1..]);
      assert s == [s[0]] + s[1..];
    }
  }

  /** Every other character is kept as often as it occurs. */
  lemma {:induction false} StripSpacesCount(s: string)
    ensures forall c :: multiset(StripSpaces(s))[c] == if IsSpace(c) then 0 else multiset(s)[c]
    decreases |s|
  {
    if s != [] {
      var rest := StripSpaces(s[1..]);
      var head := if IsSpace(s[0]) then [] else [s[0]];
      StripSpacesCount(s[1..]);
      assert StripSpaces(s) == head + rest;
      assert s == [s[0]] + s[1..];
      assert multiset(s) == multiset{s[0]} + multiset(s[1..]);
      assert multiset(head + rest) == multiset(head) + multiset(rest);
    }
  }

  /** The characters kept stay in their order. */
  lemma {:induction false} StripSpacesOrder(s: string)
    ensures IsSubsequence(StripSpaces(s), s)
    decreases |s|
  {
    if s != [] {
      var rest := StripSpaces(s[1..]);
      StripSpacesOrder(s[1..]);
      if IsSpace(s[0]) {
        assert StripSpaces(s) == rest;
      } else {
        assert StripSpaces(s) == [s[0]] + rest;
        assert ([s[0]] + rest)[1..] == rest;
      }
    }
  }

  /** Removing white space distributes over concatenation. */
  lemma {:induction false} StripSpacesConcat(a: string, b: string)
    ensures StripSpaces(a + b) == StripSpaces(a) + StripSpaces(b)
    decreases |a|
  {
    if a != [] {
      var head := if IsSpace(a[0]) then [] else [a[0]];
      assert (a + b)[0] == a[0];
      assert (a + b)[1..] == a[1..] + b;
      StripSpacesConcat(a[1..], b);
      assert StripSpaces(a + b) == head + StripSpaces(a[1..] + b);
      assert StripSpaces(a) == head + StripSpaces(a[1..]);
    } else {
      assert a + b == b;
    }
  }

  /** `p` occurs in `s` starting at position `j`. */
  predicate OccursAt(s: string, p: string, j: int) {
    0 <= j && j + |p| <= |s| && s[j..j + |p|] == p
  }

  /**
   * `indexOf`: the leftmost position at which `p` occurs in `s`, if any.
   * The empty pattern occurs at position 0.
   */
  function IndexOf(s: string, p: string): (r: Option<nat>)
    ensures r.Some? ==> OccursAt(s, p, r.value)
    ensures r.Some? ==> forall j :: 0 <= j < r.value ==> !OccursAt(s, p, j)
    ensures r.None? ==> forall j :: !OccursAt(s, p, j)
    decreases |s|
  {
    if p <= s then Some(0)
    else if |s| <= |p| then None
    else
      var tail := IndexOf(s[1..], p);
      assert !OccursAt(s, p, 0);
      assert forall j :: 1 <= j ==> OccursAt(s, p, j) == OccursAt(s[1..], p, j - 1);
      match tail
      case None => None
      case Some(i) => Some(i + 1)
  }

  /** `includes`. */
  predicate Contains(s: string, q: string) {
    IndexOf(s, q).Some?
  }

  /** `s.includes(q)` holds exactly when `q` occurs somewhere in `s`. */
  lemma ContainsIff(s: string, q: string)
    ensures Contains(s, q) <==> exists j :: OccursAt(s, q, j)
  {
    if Contains(s, q) {
      assert OccursAt(s, q, IndexOf(s, q).value);
    }
  }

  lemma ContainsEmpty(s: string)
    ensures Contains(s, [])
  {
  }

  /**
   * GetSubstitution of ECMAScript for a string pattern (no capture groups):
   * in the replacement `t`, `$$` stands for `$`, `$&` for the matched text,
   * `` $` `` for the text before the match and `$'` for the text after it;
   * every other character, a lone `$` included, stands for itself.
   */
  function Substitution(t: string, matched: string, before: string, after: string): (r: string)
    ensures '$' !in t ==> r == t
    decreases |t|
  {
    if t == [] then []
    else if |t| >= 2 && t[0] == '$' && t[1] == '$' then "$" + Substitution(t[2..], matched, before, after)
    else if |t| >= 2 && t[0] == '$' && t[1] == '&' then matched + Substitution(t[2..], matched, before, after)
    else if |t| >= 2 && t[0] == '$' && t[1] == '`' then before + Substitution(t[2..], matched, before, after)
    else if |t| >= 2 && t[0] == '$' && t[1] == '\'' then after + Substitution(t[2..], matched, before, after)
    else
      assert t == [t[0]] + t[1..];
      [t[0]] + Substitution(t[1..], matched, before, after)
  }

  /** `s.replace(p, t)` with a string pattern: only the leftmost occurrence is replaced. */
  function ReplaceFirst(s: string, p: string, t: string): (r: string)
    ensures IndexOf(s, p).None? ==> r == s
    ensures IndexOf(s, p).Some? ==>
      var i := IndexOf(s, p).value;
      i <= |r| && r[..i] == s[..i] && r[i..] == Substitution(t, p, s[..i], s[i + |p|..]) + s[i + |p|..]
  {
    match IndexOf(s, p)
    case None => s
    case Some(i) =>
      var before, after := s[..i], s[i + |p|..];
      var rest := Substitution(t, p, before, after) + after;
      assert |before| == i;
      assert (before + rest)[..i] == before && (before + rest)[i..] == rest;
      before + rest
  }

  /** Without an occurrence of the pattern, nothing is replaced. */
  lemma ReplaceFirstAbsent(s: string, p: string, t: string)
    requires forall j :: !OccursAt(s, p, j)
    ensures ReplaceFirst(s, p, t) == s
  {
  }

  /**
   * When the first occurrence of `p` in `a + p + b` is the one after `a`,
   * that occurrence is replaced and `a` and `b` are kept, even if `b`
   * contains `p` again.
   */
  lemma ReplaceFirstAt(a: string, p: string, b: string, t: string)
    requires forall j :: 0 <= j < |a| ==> !OccursAt(a + p + b, p, j)
    ensures ReplaceFirst(a + p + b, p, t) == a + Substitution(t, p, a, b) + b
  {
    var s := a + p + b;
    assert s[|a|..|a| + |p|] == p;
    assert OccursAt(s, p, |a|);
    var i := IndexOf(s, p).value;
    assert i == |a|;
    assert s[..i] == a;
    assert s[i + |p|..] == b;
  }

  /** The same, for a replacement without `$`: the occurrence becomes `t` literally. */
  lemma ReplaceFirstLiteral(a: string, p: string, b: string, t: string)
    requires forall j :: 0 <= j < |a| ==> !OccursAt(a + p + b, p, j)
    requires '$' !in t
    ensures ReplaceFirst(a + p + b, p, t) == a + t + b
  {
    ReplaceFirstAt(a, p, b, t);
  }
}
