/**
 * The worked rename examples, stated for every input of their shape: a display
 * name of two words, and a URL that spells the old safe name once before any
 * later copies. Renaming "Acme" (URL "https://acme/") to "Acme Two" is the
 * instance w1 = "Acme", w2 = "Two", pre = "https://", post = "/".
 */
module Scenarios {
  import opened Text
  import opened Roster

  /** Two words around one white-space character lose it. */
  lemma StripOneSpace(a: string, sp: string, b: string)
    requires NoSpace(a) && NoSpace(b) && |sp| == 1 && IsSpace(sp[0])
    ensures StripSpaces(a + (sp + b)) == a + b
  {
    var tail := sp + b;
    StripSpacesConcat(sp, b);
    StripSpacesSpace(sp);
    StripSpacesClean(b);
    assert StripSpaces(tail) == b;
    StripSpacesConcat(a, tail);
    StripSpacesClean(a);
  }

  /** A single white-space character is removed. */
  lemma StripSpacesSpace(sp: string)
    requires |sp| == 1 && IsSpace(sp[0])
    ensures StripSpaces(sp) == []
  {
    assert sp[1..] == [];
  }

  /** Lower-casing never introduces a `$`. */
  lemma ToLowerNoDollar(s: string)
    requires '$' !in s
    ensures '$' !in ToLower(s)
  {
    ToLowerAt(s);
    forall i | 0 <= i < |s|
      ensures ToLower(s)[i] != '$'
    {
      assert s[i] != '$';
    }
  }

  /** The safe name of "w1 w2" is the two words run together and lower-cased. */
  lemma TwoWordsSafeName(w1: string, w2: string)
    requires w1 != [] && w2 != [] && NoSpace(w1) && NoSpace(w2)
    ensures Trim(w1 + " " + w2) == w1 + " " + w2
    ensures Normalize(w1 + " " + w2) == ToLower(w1 + w2)
  {
    var n := w1 + " " + w2;
    assert n == w1 + (" " + w2);
    assert n[0] == w1[0] && n[|n| - 1] == w2[|w2| - 1];
    assert TrimStart(n) == n;
    assert TrimEnd(n) == n;
    StripOneSpace(w1, " ", w2);
  }

  /**
   * Renaming the one record of the old safe name to "w1 w2" stores that name,
   * the words run together and lower-cased as safe name, and a URL in which the
   * first copy of the old safe name is replaced by the new one.
   */
  lemma RenameTwoWords(s: Site, w1: string, w2: string, pre: string, post: string)
    requires w1 != [] && w2 != [] && NoSpace(w1) && NoSpace(w2) && '$' !in w1 + w2
    requires s.url == pre + s.safeName + post
    requires forall j :: 0 <= j < |pre| ==> !OccursAt(s.url, s.safeName, j)
    ensures RenameAll([s], s.safeName, w1 + " " + w2) ==
      [s.(siteName := w1 + " " + w2, safeName := ToLower(w1 + w2), url := pre + ToLower(w1 + w2) + post)]
  {
    TwoWordsSafeName(w1, w2);
    ToLowerNoDollar(w1 + w2);
    RenamedUrlFirst(s, w1 + " " + w2, pre, post);
    RenameAllAt([s], s.safeName, w1 + " " + w2);
  }

  /** Renaming to "$&" gives the safe name "$&". */
  lemma DollarSafeName()
    ensures Normalize("$&") == "$&"
  {
    var d := "$&";
    assert NoSpace(d) && NoUpper(d);
    TrimOfClean(d);
    StripSpacesClean(d);
    ToLowerOfLower(d);
  }

  /**
   * `replace` reads `$&` in the new safe name as "the matched text": renaming a
   * site to a name whose safe name is "$&" (such as "$&" itself) leaves its URL
   * as it was.
   */
  lemma DollarAmpersandRename(s: Site, newName: string, pre: string, post: string)
    requires Normalize(newName) == "$&"
    requires s.url == pre + s.safeName + post
    requires forall j :: 0 <= j < |pre| ==> !OccursAt(s.url, s.safeName, j)
    ensures Renamed(s, s.safeName, newName).url == s.url
  {
    ReplaceFirstAt(pre, s.safeName, post, "$&");
    assert Substitution("$&", s.safeName, pre, post) == s.safeName;
  }
}
