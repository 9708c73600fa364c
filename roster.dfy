/**
 * The client-side roster of the site administration panel: the ordered list
 * of site records held in `allSites`, and the list transformations the page
 * applies to it (filtering, deletion by safe name, renaming, the counters).
 */
module Roster {
  import opened Prelude
  import opened Text

  /** One site as the backend returns it; `status` and `createdAt` are opaque text. */
  datatype Site = Site(siteName: string, safeName: string, url: string, status: string, createdAt: string)

  // ---------------------------------------------------------------------------
  // Safe names

  /** The safe name of a display name: trimmed, all white space removed, lower-cased. */
  function Normalize(name: string): (r: string)
    ensures NoSpace(r) && NoUpper(r)
  {
    StripSpacesNoSpace(Trim(name));
    ToLowerNoUpper(StripSpaces(Trim(name)));
    ToLower(StripSpaces(Trim(name)))
  }

  lemma NormalizeIdempotent(name: string)
    ensures Normalize(Normalize(name)) == Normalize(name)
  {
    var n := Normalize(name);
    TrimOfClean(n);
    StripSpacesClean(n);
    ToLowerOfLower(n);
  }

  /** The rename handler normalises the trimmed name; trimming first changes nothing. */
  lemma NormalizeOfTrim(name: string)
    ensures Normalize(Trim(name)) == Normalize(name)
  {
    TrimIdempotent(name);
  }

  /** A record whose safe name is the normalisation of its display name. */
  predicate Canonical(s: Site) {
    s.safeName == Normalize(s.siteName)
  }

  predicate AllCanonical(r: seq<Site>) {
    forall i :: 0 <= i < |r| ==> Canonical(r[i])
  }

  // ---------------------------------------------------------------------------
  // Filter

  /** The filter box's text as it is compared: trimmed and lower-cased. */
  function QueryOf(raw: string): string {
    ToLower(Trim(raw))
  }

  /**
   * The compared query has no capital, keeps the trimmed text's length, has no
   * white space at either end, and is empty exactly for a box of white space.
   */
  lemma QueryOfSpec(raw: string)
    ensures NoUpper(QueryOf(raw)) && |QueryOf(raw)| == |Trim(raw)|
    ensures QueryOf(raw) == [] <==> forall i :: 0 <= i < |raw| ==> IsSpace(raw[i])
    ensures QueryOf(raw) != [] ==> !IsSpace(QueryOf(raw)[0]) && !IsSpace(QueryOf(raw)[|QueryOf(raw)| - 1])
  {
    var t := Trim(raw);
    ToLowerAt(t);
    ToLowerNoUpper(t);
    TrimEmptyIff(raw);
  }

  /** The lower-cased name or the lower-cased URL contains the query. */
  predicate Matches(s: Site, q: string) {
    Contains(ToLower(s.siteName), q) || Contains(ToLower(s.url), q)
  }

  /** A record matches when the query occurs somewhere in its lower-cased name or lower-cased URL. */
  lemma MatchesIff(s: Site, q: string)
    ensures Matches(s, q) <==>
      (exists j :: OccursAt(ToLower(s.siteName), q, j)) || (exists j :: OccursAt(ToLower(s.url), q, j))
  {
    ContainsIff(ToLower(s.siteName), q);
    ContainsIff(ToLower(s.url), q);
    assert Matches(s, q) == (Contains(ToLower(s.siteName), q) || Contains(ToLower(s.url), q));
  }

  /** `allSites.filter(...)` with the matching test. */
  function KeepMatching(r: seq<Site>, q: string): (kept: seq<Site>)
    ensures |kept| <= |r|
    ensures forall i :: 0 <= i < |kept| ==> Matches(kept[i], q)
    decreases |r|
  {
    if r == [] then []
    else (if Matches(r[0], q) then [r[0]] else []) + KeepMatching(r[1..], q)
  }

  /** The list the filter handler shows: the whole roster for an empty query, else the matches. */
  function Filter(r: seq<Site>, raw: string): (shown: seq<Site>)
    ensures |shown| <= |r|
    ensures QueryOf(raw) != [] ==> forall i :: 0 <= i < |shown| ==> Matches(shown[i], QueryOf(raw))
  {
    var q := QueryOf(raw);
    if q == [] then r else KeepMatching(r, q)
  }

  /** Keeping the matches is order-preserving. */
  lemma {:induction false} KeepMatchingOrder(r: seq<Site>, q: string)
    ensures IsSubsequence(KeepMatching(r, q), r)
    decreases |r|
  {
    if r != [] {
      var rest := KeepMatching(r[1..], q);
      KeepMatchingOrder(r[1..], q);
      if Matches(r[0], q) {
        assert KeepMatching(r, q) == [r[0]] + rest;
        assert ([r[0]] + rest)[1..] == rest;
      } else {
        assert KeepMatching(r, q) == rest;
      }
    }
  }

  /** Keeping the matches keeps each matching record as often as it occurs, and no other. */
  lemma {:induction false} KeepMatchingCount(r: seq<Site>, q: string)
    ensures forall x :: multiset(KeepMatching(r, q))[x] == if Matches(x, q) then multiset(r)[x] else 0
    decreases |r|
  {
    if r != [] {
      var rest := KeepMatching(r[1..], q);
      var head := if Matches(r[0], q) then [r[0]] else [];
      KeepMatchingCount(r[1..], q);
      assert KeepMatching(r, q) == head + rest;
      assert r == [r[0]] + r[1..];
      assert multiset(r) == multiset{r[0]} + multiset(r[1..]);
      assert multiset(KeepMatching(r, q)) == multiset(head) + multiset(rest);
    }
  }

  lemma KeepMatchingSpec(r: seq<Site>, q: string)
    ensures IsSubsequence(KeepMatching(r, q), r)
    ensures forall x :: multiset(KeepMatching(r, q))[x] == if Matches(x, q) then multiset(r)[x] else 0
  {
    KeepMatchingOrder(r, q);
    KeepMatchingCount(r, q);
  }

  /** Every record contains the empty query, so filtering by it keeps everything. */
  lemma {:induction false} KeepMatchingEmpty(r: seq<Site>)
    ensures KeepMatching(r, []) == r
    decreases |r|
  {
    if r != [] {
      ContainsEmpty(ToLower(r[0].siteName));
      KeepMatchingEmpty(r[1..]);
      assert r == [r[0]] + r[1..];
    }
  }

  /** The empty-query shortcut of the handler agrees with filtering by the query itself. */
  lemma FilterIsKeepMatching(r: seq<Site>, raw: string)
    ensures Filter(r, raw) == KeepMatching(r, QueryOf(raw))
  {
    if QueryOf(raw) == [] {
      KeepMatchingEmpty(r);
    }
  }

  /** A query that trims to nothing shows the whole roster, in its order. */
  lemma FilterBlankQuery(r: seq<Site>, raw: string)
    requires forall i :: 0 <= i < |raw| ==> IsSpace(raw[i])
    ensures Filter(r, raw) == r
  {
    TrimEmptyIff(raw);
  }

  /**
   * The filtered list is an order-preserving subsequence of the roster holding
   * each record as often as the roster does when it matches, and never otherwise.
   */
  lemma FilterSpec(r: seq<Site>, raw: string)
    ensures IsSubsequence(Filter(r, raw), r)
    ensures forall x :: multiset(Filter(r, raw))[x] == if Matches(x, QueryOf(raw)) then multiset(r)[x] else 0
    ensures forall x :: x in Filter(r, raw) <==> x in r && Matches(x, QueryOf(raw))
  {
    FilterIsKeepMatching(r, raw);
    KeepMatchingSpec(r, QueryOf(raw));
    forall x
      ensures x in Filter(r, raw) <==> x in r && Matches(x, QueryOf(raw))
    {
      assert x in Filter(r, raw) <==> multiset(Filter(r, raw))[x] > 0;
      assert x in r <==> multiset(r)[x] > 0;
    }
  }

  /** Nothing is shown exactly when no record matches. */
  lemma FilterEmptyIff(r: seq<Site>, raw: string)
    ensures Filter(r, raw) == [] <==> forall i :: 0 <= i < |r| ==> !Matches(r[i], QueryOf(raw))
  {
    FilterSpec(r, raw);
    if Filter(r, raw) != [] {
      var x := Filter(r, raw)[0];
      assert x in Filter(r, raw);
      var i :| 0 <= i < |r| && r[i] == x;
    }
    forall i | 0 <= i < |r| && Matches(r[i], QueryOf(raw))
      ensures Filter(r, raw) != []
    {
      assert r[i] in r;
    }
  }

  // ---------------------------------------------------------------------------
  // Counters

  /** The "last created" counter: the dash, or the creation date of a record. */
  datatype Last = Dash | CreatedAt(createdAt: string)

  /** The two counters of the page. */
  datatype Stats = Stats(total: nat, last: Last)

  /** `updateStats`: the length of the list and the creation date of its final element. */
  function StatsOf(list: seq<Site>): (st: Stats)
    ensures st.total == |list|
    ensures st.last == Dash <==> list == []
    ensures list != [] ==> st.last == CreatedAt(list[|list| - 1].createdAt)
  {
    Stats(|list|, if list == [] then Dash else CreatedAt(list[|list| - 1].createdAt))
  }

  /** The last record kept is the last record of the roster that matches. */
  lemma {:induction false} KeepMatchingLast(r: seq<Site>, q: string, j: int)
    requires 0 <= j < |r| && Matches(r[j], q)
    requires forall k :: j < k < |r| ==> !Matches(r[k], q)
    ensures KeepMatching(r, q) != [] && KeepMatching(r, q)[|KeepMatching(r, q)| - 1] == r[j]
    decreases |r|
  {
    var rest := KeepMatching(r[1..], q);
    if j == 0 {
      KeepMatchingNone(r[1..], q);
      assert KeepMatching(r, q) == [r[0]] + rest;
    } else {
      forall k | j - 1 < k < |r| - 1
        ensures !Matches(r[1..][k], q)
      {
        assert r[1..][k] == r[k + 1];
      }
      KeepMatchingLast(r[1..], q, j - 1);
      KeepMatchingLastOf(r, q);
    }
  }

  /** The last record kept from a roster is the last one kept from its tail, when there is one. */
  lemma KeepMatchingLastOf(r: seq<Site>, q: string)
    requires r != [] && KeepMatching(r[1..], q) != []
    ensures var rest := KeepMatching(r[1..], q);
      KeepMatching(r, q) != [] && KeepMatching(r, q)[|KeepMatching(r, q)| - 1] == rest[|rest| - 1]
  {
    var head := if Matches(r[0], q) then [r[0]] else [];
    var rest := KeepMatching(r[1..], q);
    assert KeepMatching(r, q) == head + rest;
  }

  /** Nothing is kept when nothing matches. */
  lemma {:induction false} KeepMatchingNone(r: seq<Site>, q: string)
    requires forall k :: 0 <= k < |r| ==> !Matches(r[k], q)
    ensures KeepMatching(r, q) == []
    decreases |r|
  {
    if r != [] {
      assert !Matches(r[0], q);
      forall k | 0 <= k < |r| - 1
        ensures !Matches(r[1..][k], q)
      {
        assert r[1..][k] == r[k + 1];
      }
      KeepMatchingNone(r[1..], q);
    }
  }

  /** After filtering, "last created" is the date of the last matching record. */
  lemma FilterStatsLast(r: seq<Site>, raw: string, j: int)
    requires 0 <= j < |r| && Matches(r[j], QueryOf(raw))
    requires forall k :: j < k < |r| ==> !Matches(r[k], QueryOf(raw))
    ensures StatsOf(Filter(r, raw)).last == CreatedAt(r[j].createdAt)
  {
    FilterIsKeepMatching(r, raw);
    KeepMatchingLast(r, QueryOf(raw), j);
  }

  /** After filtering the total never exceeds the roster's size, and the dash means no match. */
  lemma FilterStatsBounds(r: seq<Site>, raw: string)
    ensures StatsOf(Filter(r, raw)).total <= |r|
    ensures StatsOf(Filter(r, raw)).last == Dash <==> forall i :: 0 <= i < |r| ==> !Matches(r[i], QueryOf(raw))
  {
    FilterSpec(r, raw);
    SubsequenceLength(Filter(r, raw), r);
    FilterEmptyIff(r, raw);
  }

  // ---------------------------------------------------------------------------
  // Delete

  /** `allSites.filter(s => s.safeName !== safe)`. */
  function RemoveBySafe(r: seq<Site>, safe: string): (kept: seq<Site>)
    ensures |kept| <= |r|
    ensures forall i :: 0 <= i < |kept| ==> kept[i].safeName != safe
    decreases |r|
  {
    if r == [] then []
    else (if r[0].safeName != safe then [r[0]] else []) + RemoveBySafe(r[1..], safe)
  }

  /** Deletion keeps the remaining records in their order. */
  lemma {:induction false} RemoveBySafeOrder(r: seq<Site>, safe: string)
    ensures IsSubsequence(RemoveBySafe(r, safe), r)
    decreases |r|
  {
    if r != [] {
      var rest := RemoveBySafe(r[1..], safe);
      RemoveBySafeOrder(r[1..], safe);
      if r[0].safeName != safe {
        assert RemoveBySafe(r, safe) == [r[0]] + rest;
        assert ([r[0]] + rest)[1..] == rest;
      } else {
        assert RemoveBySafe(r, safe) == rest;
      }
    }
  }

  /** Deletion drops every record with that safe name and keeps every other one as often as it occurs. */
  lemma {:induction false} RemoveBySafeCount(r: seq<Site>, safe: string)
    ensures forall x :: multiset(RemoveBySafe(r, safe))[x] == if x.safeName == safe then 0 else multiset(r)[x]
    decreases |r|
  {
    if r != [] {
      var rest := RemoveBySafe(r[1..], safe);
      var head := if r[0].safeName != safe then [r[0]] else [];
      RemoveBySafeCount(r[1..], safe);
      assert RemoveBySafe(r, safe) == head + rest;
      assert r == [r[0]] + r[1..];
      assert multiset(r) == multiset{r[0]} + multiset(r[1..]);
      assert multiset(RemoveBySafe(r, safe)) == multiset(head) + multiset(rest);
    }
  }

  lemma RemoveBySafeSpec(r: seq<Site>, safe: string)
    ensures IsSubsequence(RemoveBySafe(r, safe), r)
    ensures forall x :: multiset(RemoveBySafe(r, safe))[x] == if x.safeName == safe then 0 else multiset(r)[x]
  {
    RemoveBySafeOrder(r, safe);
    RemoveBySafeCount(r, safe);
  }

  /** Deleting a safe name that no record carries leaves the roster as it is. */
  lemma {:induction false} RemoveBySafeAbsent(r: seq<Site>, safe: string)
    requires forall i :: 0 <= i < |r| ==> r[i].safeName != safe
    ensures RemoveBySafe(r, safe) == r
    decreases |r|
  {
    if r != [] {
      RemoveBySafeAbsent(r[1..], safe);
      assert r == [r[0]] + r[1..];
    }
  }

  /** Deleting the same safe name twice is deleting it once. */
  lemma RemoveBySafeIdempotent(r: seq<Site>, safe: string)
    ensures RemoveBySafe(RemoveBySafe(r, safe), safe) == RemoveBySafe(r, safe)
  {
    RemoveBySafeAbsent(RemoveBySafe(r, safe), safe);
  }

  /** Deletion keeps every remaining record canonical. */
  lemma RemoveBySafeCanonical(r: seq<Site>, safe: string)
    requires AllCanonical(r)
    ensures AllCanonical(RemoveBySafe(r, safe))
  {
    RemoveBySafeSpec(r, safe);
    forall i | 0 <= i < |RemoveBySafe(r, safe)|
      ensures Canonical(RemoveBySafe(r, safe)[i])
    {
      var x := RemoveBySafe(r, safe)[i];
      assert x in RemoveBySafe(r, safe);
      assert multiset(r)[x] > 0;
      assert x in r;
    }
  }

  // ---------------------------------------------------------------------------
  // Rename

  /**
   * The map step of the rename handler for one record: a record carrying the old
   * safe name takes the trimmed new name, its normalisation, and a URL whose
   * first occurrence of the old safe name is replaced by the new one.
   */
  function Renamed(s: Site, oldSafe: string, newName: string): (n: Site)
    ensures n.status == s.status && n.createdAt == s.createdAt
    ensures s.safeName != oldSafe ==> n == s
    ensures s.safeName == oldSafe ==> Canonical(n)
  {
    NormalizeOfTrim(newName);
    if s.safeName == oldSafe then
      s.(siteName := Trim(newName),
         safeName := Normalize(newName),
         url := ReplaceFirst(s.url, oldSafe, Normalize(newName)))
    else s
  }

  /** `allSites.map(...)` with the rename step. */
  function RenameAll(r: seq<Site>, oldSafe: string, newName: string): (renamed: seq<Site>)
    ensures |renamed| == |r|
    decreases |r|
  {
    if r == [] then [] else [Renamed(r[0], oldSafe, newName)] + RenameAll(r[1..], oldSafe, newName)
  }

  /** Renaming keeps the length and the order: position by position, each record is renamed or kept. */
  lemma {:induction false} RenameAllAt(r: seq<Site>, oldSafe: string, newName: string)
    ensures forall i :: 0 <= i < |r| ==> RenameAll(r, oldSafe, newName)[i] == Renamed(r[i], oldSafe, newName)
    decreases |r|
  {
    if r != [] {
      RenameAllAt(r[1..], oldSafe, newName);
    }
  }

  /**
   * What renaming does to each position: a record with another safe name is
   * untouched; a matched one keeps status and creation date and takes the new
   * name, its safe name and the rewritten URL.
   */
  lemma RenameAllFields(r: seq<Site>, oldSafe: string, newName: string, i: int)
    requires 0 <= i < |r|
    ensures r[i].safeName != oldSafe ==> RenameAll(r, oldSafe, newName)[i] == r[i]
    ensures r[i].safeName == oldSafe ==>
      var s := RenameAll(r, oldSafe, newName)[i];
      s.siteName == Trim(newName) && s.safeName == Normalize(newName) &&
      s.url == ReplaceFirst(r[i].url, oldSafe, Normalize(newName)) &&
      s.status == r[i].status && s.createdAt == r[i].createdAt
  {
    RenameAllAt(r, oldSafe, newName);
  }

  /** When no record carries the old safe name, renaming changes nothing. */
  lemma RenameAllAbsent(r: seq<Site>, oldSafe: string, newName: string)
    requires forall i :: 0 <= i < |r| ==> r[i].safeName != oldSafe
    ensures RenameAll(r, oldSafe, newName) == r
  {
    RenameAllAt(r, oldSafe, newName);
  }

  /** Renaming keeps a canonical roster canonical. */
  lemma RenameAllCanonical(r: seq<Site>, oldSafe: string, newName: string)
    requires AllCanonical(r)
    ensures AllCanonical(RenameAll(r, oldSafe, newName))
  {
    RenameAllAt(r, oldSafe, newName);
  }

  /** A URL without the old safe name keeps its text when the record is renamed. */
  lemma RenamedUrlAbsent(s: Site, oldSafe: string, newName: string)
    requires forall j :: !OccursAt(s.url, oldSafe, j)
    ensures Renamed(s, oldSafe, newName).url == s.url
  {
    if s.safeName == oldSafe {
      var n := Normalize(newName);
      ReplaceFirstAbsent(s.url, oldSafe, n);
      assert Renamed(s, oldSafe, newName).url == ReplaceFirst(s.url, oldSafe, n);
    }
  }

  /**
   * Only the first occurrence of the old safe name in the URL is rewritten;
   * a new safe name without `$` is put in literally.
   */
  lemma RenamedUrlFirst(s: Site, newName: string, a: string, b: string)
    requires s.url == a + s.safeName + b
    requires forall j :: 0 <= j < |a| ==> !OccursAt(s.url, s.safeName, j)
    requires '$' !in Normalize(newName)
    ensures Renamed(s, s.safeName, newName).url == a + Normalize(newName) + b
  {
    ReplaceFirstLiteral(a, s.safeName, b, Normalize(newName));
  }
}
