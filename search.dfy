/**
 * The contact search of the group-creation picker (`processSearch`): a
 * case-insensitive prefix match on first or last name over a snapshot of the
 * contact list, skipping the client's own user, producing parallel lists of
 * users and highlighted display names in contact order.
 */
module ContactSearch {
  import opened Wrappers

  /** The fields of a user record that the picker reads. */
  datatype User = User(id: int, firstName: string, lastName: string, phone: Option<string>)

  /**
   * The display name `Utilities.generateSearchName(first, last, q)` builds.
   * Its formatting is not part of this model, so the name is kept as the
   * term of its three arguments.
   */
  datatype HighlightedName = SearchName(first: string, last: string, query: string)

  /** `Character.toLowerCase` on the ASCII letters; every other character is kept. */
  function LowerChar(c: char): (r: char)
    ensures 'A' <= c <= 'Z' ==> r as int == c as int + 32
    ensures !('A' <= c <= 'Z') ==> r == c
  {
    if 'A' <= c <= 'Z' then (c as int + 32) as char else c
  }

  /** `String.toLowerCase`, character by character: no upper-case ASCII letter is left. */
  function Lower(s: string): (r: string)
    ensures |r| == |s|
    ensures forall i :: 0 <= i < |r| ==> !('A' <= r[i] <= 'Z')
  {
    seq(|s|, i requires 0 <= i < |s| => LowerChar(s[i]))
  }

  /** Lowering twice is lowering once: the loop's lowered names compare with an already lowered query. */
  lemma LowerIdempotent(s: string)
    ensures Lower(Lower(s)) == Lower(s)
  {
    assert forall i :: 0 <= i < |s| ==> LowerChar(Lower(s)[i]) == Lower(s)[i];
  }

  /** `String.startsWith`: `p` is a prefix of `s`; every string starts with the empty one. */
  function StartsWith(s: string, p: string): (b: bool)
    ensures |p| == 0 ==> b
    ensures b ==> |p| <= |s|
  {
    |p| <= |s| && s[..|p|] == p
  }

  /** `p` is a prefix of `s` exactly when they agree on every position of `p`. */
  lemma StartsWithByCharacter(s: string, p: string)
    ensures StartsWith(s, p) <==> |p| <= |s| && forall i :: 0 <= i < |p| ==> s[i] == p[i]
  {
    if |p| <= |s| {
      assert forall i :: 0 <= i < |p| ==> s[..|p|][i] == s[i];
    }
  }

  /** Character by character: the name, lowered, begins with the lowered query `q`. */
  predicate PrefixIgnoringCase(name: string, q: string)
  {
    |q| <= |name| && forall i :: 0 <= i < |q| ==> LowerChar(name[i]) == q[i]
  }

  /** The prefix test on the lowered name is the character-by-character test. */
  lemma PrefixLower(name: string, q: string)
    ensures StartsWith(Lower(name), q) <==> PrefixIgnoringCase(name, q)
  {
    if |q| <= |name| {
      var l := Lower(name)[..|q|];
      assert forall i :: 0 <= i < |q| ==> l[i] == LowerChar(name[i]);
    }
  }

  /** The filter test of the search loop for the already lowered query `q`. */
  function NameMatches(u: User, q: string): (b: bool)
    ensures |q| == 0 ==> b
  {
    StartsWith(Lower(u.firstName), q) || StartsWith(Lower(u.lastName), q)
  }

  /** The filter test, stated character by character on the names. */
  lemma NameMatchesByCharacter(u: User, q: string)
    ensures NameMatches(u, q) <==> PrefixIgnoringCase(u.firstName, q) || PrefixIgnoringCase(u.lastName, q)
  {
    PrefixLower(u.firstName, q);
    PrefixLower(u.lastName, q);
  }

  /** A user the search lists for `q`: the name matches and it is not the client's own user. */
  function Listed(u: User, q: string, clientId: int): (b: bool)
    ensures b ==> NameMatches(u, q)
    ensures u.id == clientId ==> !b
    ensures |q| == 0 ==> (b <==> u.id != clientId)
  {
    NameMatches(u, q) && u.id != clientId
  }

  /** Every contact has a user record (the loop dereferences the lookup unconditionally). */
  predicate Resolvable(contacts: seq<int>, users: map<int, User>)
  {
    forall i :: 0 <= i < |contacts| ==> contacts[i] in users
  }

  /**
   * The users the search lists for the lowered query `q`, in contact order.
   * Each result is the record of some contact, passes the filter and is not
   * the client's own user.
   */
  function Matching(contacts: seq<int>, users: map<int, User>, q: string, clientId: int): (r: seq<User>)
    requires Resolvable(contacts, users)
    ensures |r| <= |contacts|
    ensures forall u :: u in r ==> Listed(u, q, clientId)
    ensures forall u :: u in r ==> exists k :: 0 <= k < |contacts| && users[contacts[k]] == u
  {
    if |contacts| == 0 then []
    else
      var n := |contacts| - 1;
      assert forall i :: 0 <= i < n ==> contacts[..n][i] == contacts[i];
      var prefix := Matching(contacts[..n], users, q, clientId);
      var u := users[contacts[n]];
      if Listed(u, q, clientId) then
        assert users[contacts[n]] == u;
        prefix + [u]
      else prefix
  }

  /** The name list built beside the results: one highlighted name per result, same position. */
  function NamesFor(found: seq<User>, q: string): (names: seq<HighlightedName>)
    ensures |names| == |found|
    ensures forall i :: 0 <= i < |found| ==>
      names[i] == SearchName(found[i].firstName, found[i].lastName, q)
  {
    if |found| == 0 then []
    else NamesFor(found[..|found| - 1], q) + [SearchName(found[|found| - 1].firstName, found[|found| - 1].lastName, q)]
  }

  /**
   * The body of `processSearch` on a snapshot of the contacts. An empty query
   * gives two empty lists without looking any user up; otherwise the loop
   * collects, in contact order, the listed users and their highlighted names.
   */
  method ProcessSearch(query: string, contacts: seq<int>, users: map<int, User>, clientId: int)
    returns (found: seq<User>, names: seq<HighlightedName>)
    requires |query| > 0 ==> Resolvable(contacts, users)
    ensures |query| == 0 ==> found == [] && names == []
    ensures |query| > 0 ==> found == Matching(contacts, users, Lower(query), clientId)
    ensures |names| == |found|
    ensures forall i :: 0 <= i < |found| ==>
      names[i] == SearchName(found[i].firstName, found[i].lastName, Lower(query))
  {
    if |query| == 0 {
      return [], [];
    }
    var q := Lower(query);
    found, names := [], [];
    for i := 0 to |contacts|
      invariant found == Matching(contacts[..i], users, q, clientId)
      invariant names == NamesFor(found, q)
    {
      assert contacts[..i + 1][..i] == contacts[..i];
      var user := users[contacts[i]];
      if NameMatches(user, q) {
        if user.id == clientId {
          continue;
        }
        names := names + [SearchName(user.firstName, user.lastName, q)];
        found := found + [user];
      }
    }
    assert contacts[..|contacts|] == contacts;
  }

  // ---------------------------------------------------------------------------
  // Properties of the filter.
  // ---------------------------------------------------------------------------

  /** Every listed contact's user is among the results: the filter drops nobody it should keep. */
  lemma {:induction false} MatchingComplete(contacts: seq<int>, users: map<int, User>, q: string, clientId: int, k: nat)
    requires Resolvable(contacts, users)
    requires k < |contacts| && Listed(users[contacts[k]], q, clientId)
    ensures users[contacts[k]] in Matching(contacts, users, q, clientId)
  {
    var n := |contacts| - 1;
    if k < n {
      assert forall i :: 0 <= i < n ==> contacts[..n][i] == contacts[i];
      MatchingComplete(contacts[..n], users, q, clientId, k);
    }
  }

  /**
   * Results keep contact order: searching two consecutive parts of the
   * contact list gives the two result lists one after the other.
   */
  lemma {:induction false} MatchingAppend(a: seq<int>, b: seq<int>, users: map<int, User>, q: string, clientId: int)
    requires Resolvable(a + b, users)
    ensures Resolvable(a, users) && Resolvable(b, users)
    ensures Matching(a + b, users, q, clientId) == Matching(a, users, q, clientId) + Matching(b, users, q, clientId)
    decreases |b|
  {
    ResolvableParts(a, b, users);
    if |b| == 0 {
      AppendNothing(a, b);
    } else {
      var n := |b| - 1;
      DropLast(a, b);
      MatchingAppend(a, b[..n], users, q, clientId);
      MatchingSnoc(a + b, users, q, clientId);
      MatchingSnoc(b, users, q, clientId);
      var u := users[b[n]];
      var last := if Listed(u, q, clientId) then [u] else [];
      UsersAssoc(Matching(a, users, q, clientId), Matching(b[..n], users, q, clientId), last);
    }
  }

  /** Both parts of a resolvable contact list, and `b` without its last contact, are resolvable. */
  lemma ResolvableParts(a: seq<int>, b: seq<int>, users: map<int, User>)
    requires Resolvable(a + b, users)
    ensures Resolvable(a, users) && Resolvable(b, users)
    ensures |b| > 0 ==> Resolvable(b[..|b| - 1], users)
  {
    assert forall i :: 0 <= i < |a| ==> (a + b)[i] == a[i];
    assert forall i :: 0 <= i < |b| ==> (a + b)[|a| + i] == b[i];
  }

  /** Appending the empty contact list changes nothing. */
  lemma AppendNothing(a: seq<int>, b: seq<int>)
    requires |b| == 0
    ensures a + b == a
  {
  }

  /** The search over a non-empty contact list is the search over all but the last contact, then the last one if listed. */
  lemma MatchingSnoc(c: seq<int>, users: map<int, User>, q: string, clientId: int)
    requires Resolvable(c, users) && |c| > 0
    ensures Resolvable(c[..|c| - 1], users)
    ensures var u := users[c[|c| - 1]];
      Matching(c, users, q, clientId) ==
      Matching(c[..|c| - 1], users, q, clientId) + (if Listed(u, q, clientId) then [u] else [])
  {
  }

  /** Concatenation of result lists is associative. */
  lemma UsersAssoc(x: seq<User>, y: seq<User>, z: seq<User>)
    ensures (x + y) + z == x + (y + z)
  {
  }

  /** Dropping the last contact of `a + b`, for a non-empty `b`, drops it from `b`. */
  lemma DropLast(a: seq<int>, b: seq<int>)
    requires |b| > 0
    ensures (a + b)[..|a + b| - 1] == a + b[..|b| - 1]
    ensures (a + b)[|a + b| - 1] == b[|b| - 1]
  {
  }

  /** A name that starts with the query, in whatever letter case, matches after lowering both. */
  lemma StartsWithLower(s: string, p: string)
    requires StartsWith(s, p)
    ensures StartsWith(Lower(s), Lower(p))
  {
    assert forall i :: 0 <= i < |p| ==> s[i] == p[i] by {
      forall i | 0 <= i < |p| ensures s[i] == p[i] { assert s[..|p|][i] == p[i]; }
    }
  }

  /** The prefix relation is transitive. */
  lemma StartsWithTrans(s: string, p: string, q: string)
    requires StartsWith(s, p) && StartsWith(p, q)
    ensures StartsWith(s, q)
  {
    assert s[..|q|] == s[..|p|][..|q|];
  }

  /** Typing more characters only narrows the result: every result for a longer query is a result for its prefix. */
  lemma MatchingNarrows(contacts: seq<int>, users: map<int, User>, longer: string, shorter: string, clientId: int)
    requires Resolvable(contacts, users)
    requires StartsWith(longer, shorter)
    ensures forall u :: u in Matching(contacts, users, Lower(longer), clientId) ==>
      u in Matching(contacts, users, Lower(shorter), clientId)
  {
    StartsWithLower(longer, shorter);
    forall u | u in Matching(contacts, users, Lower(longer), clientId)
      ensures u in Matching(contacts, users, Lower(shorter), clientId)
    {
      var k :| 0 <= k < |contacts| && users[contacts[k]] == u;
      if StartsWith(Lower(u.firstName), Lower(longer)) {
        StartsWithTrans(Lower(u.firstName), Lower(longer), Lower(shorter));
      } else {
        StartsWithTrans(Lower(u.lastName), Lower(longer), Lower(shorter));
      }
      MatchingComplete(contacts, users, Lower(shorter), clientId, k);
    }
  }

  /**
   * A contact whose first name begins with the typed text in any ASCII letter
   * case (typing "JO" finds "John") is found unless it is the client.
   */
  lemma TypedPrefixFindsUser(contacts: seq<int>, users: map<int, User>, query: string, p: string, clientId: int, k: nat)
    requires Resolvable(contacts, users) && k < |contacts|
    requires StartsWith(users[contacts[k]].firstName, p) && Lower(p) == Lower(query)
    requires users[contacts[k]].id != clientId
    ensures users[contacts[k]] in Matching(contacts, users, Lower(query), clientId)
  {
    StartsWithLower(users[contacts[k]].firstName, p);
    MatchingComplete(contacts, users, Lower(query), clientId, k);
  }
}
