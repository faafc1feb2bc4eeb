/** The propose-and-reject matcher (Gale-Shapley deferred acceptance with the
    advertisers proposing). Each advertiser ranks every person by
    GetCTR(advertiser, person); free advertisers propose down their lists; a
    person who is already matched switches only to an advertiser whose score
    for them is strictly higher. Everything is keyed by name. */
module Matcher {
  import opened Collections
  import opened Scoring

  /** s is ordered by non-increasing score for advertiser a. */
  predicate NonIncreasing(ctr: (string, string) -> real, a: string, s: seq<string>) {
    forall i, j :: 0 <= i < j < |s| ==> ctr(a, s[i]) >= ctr(a, s[j])
  }

  /** Inserts x into a list in non-increasing order of a's score, ahead of
      the first element whose score is not strictly above x's. */
  function InsertDescending(ctr: (string, string) -> real, a: string, x: string, s: seq<string>): (r: seq<string>)
    requires NonIncreasing(ctr, a, s)
    ensures multiset(r) == multiset(s) + multiset{x}
    ensures NonIncreasing(ctr, a, r)
    ensures r != [] && (r[0] == x || (s != [] && r[0] == s[0]))
  {
    if s == [] then [x]
    else if ctr(a, x) >= ctr(a, s[0]) then [x] + s
    else
      var rest := InsertDescending(ctr, a, x, s[1..]);
      assert s == [s[0]] + s[1..];
      [s[0]] + rest
  }

  /** List.Sort with the comparison of line 75: orders a list by
      non-increasing score for advertiser a. Only the order is promised, not
      how ties fall. */
  method SortDescending(ctr: (string, string) -> real, a: string, xs: seq<string>) returns (sorted: seq<string>)
    ensures multiset(sorted) == multiset(xs)
    ensures NonIncreasing(ctr, a, sorted)
  {
    sorted := [];
    for k := 0 to |xs|
      invariant multiset(sorted) == multiset(xs[..k])
      invariant NonIncreasing(ctr, a, sorted)
    {
      assert xs[..k + 1] == xs[..k] + [xs[k]];
      sorted := InsertDescending(ctr, a, xs[k], sorted);
    }
    assert xs[..|xs|] == xs;
  }

  /** pref is a's preference list: every person once per occurrence in
      people, best first. */
  ghost predicate IsRanking(ctr: (string, string) -> real, a: string, pref: seq<string>, people: seq<string>) {
    |pref| == |people| && multiset(pref) == multiset(people) && NonIncreasing(ctr, a, pref)
  }

  /** Every advertiser's list is its ranking. The trigger keeps the solver
      from unfolding a ranking until a proof names it. */
  ghost predicate Ranked(ctr: (string, string) -> real, people: seq<string>, preference: map<string, seq<string>>) {
    forall a {:trigger IsRanking(ctr, a, preference[a], people)} ::
      a in preference ==> IsRanking(ctr, a, preference[a], people)
  }

  /** Both dictionaries are keyed by the advertisers; every list has one
      slot per person and every cursor lies within it, at most at its end. */
  ghost predicate Indexed(people: seq<string>, advertisers: seq<string>,
                          preference: map<string, seq<string>>, cursor: map<string, int>)
  {
    && (forall a :: a in preference <==> a in advertisers)
    && (forall a :: a in cursor <==> a in advertisers)
    && (forall a :: a in preference ==> |preference[a]| == |people|)
    && (forall a :: a in cursor ==> 0 <= cursor[a] <= |people|)
  }

  /** The two dictionaries built at construction: a ranking and a cursor
      into it per advertiser, the cursor never past the end. */
  ghost predicate WellFormed(ctr: (string, string) -> real, people: seq<string>, advertisers: seq<string>,
                             preference: map<string, seq<string>>, cursor: map<string, int>)
  {
    Indexed(people, advertisers, preference, cursor) && Ranked(ctr, people, preference)
  }

  /** The free list holds advertisers, each once; the matching pairs
      distinct people with distinct advertisers, none of them free. */
  ghost predicate Partition(people: seq<string>, advertisers: seq<string>,
                            free: seq<string>, matched: map<string, string>)
  {
    && Distinct(free)
    && (forall a :: a in free ==> a in advertisers)
    && (forall p :: p in matched ==> p in people && matched[p] in advertisers && matched[p] !in free)
    && Injective(matched)
  }

  /** An advertiser that is not free is matched, to the last person it
      proposed to. */
  ghost predicate FreeUnlessMatched(advertisers: seq<string>, preference: map<string, seq<string>>,
                                    cursor: map<string, int>, free: seq<string>, matched: map<string, string>)
  {
    forall a :: a in advertisers && a !in free ==>
      a in cursor && a in preference && 1 <= cursor[a] <= |preference[a]| &&
      preference[a][cursor[a] - 1] in matched && matched[preference[a][cursor[a] - 1]] == a
  }

  /** Every person an advertiser has proposed to (the entries before its
      cursor) is matched, to an advertiser scoring at least as high for
      them. */
  ghost predicate ProposalsHonoured(ctr: (string, string) -> real, preference: map<string, seq<string>>, cursor: map<string, int>,
                                    matched: map<string, string>)
  {
    forall a, k :: a in cursor && a in preference && 0 <= k < cursor[a] && k < |preference[a]| ==>
      preference[a][k] in matched && ctr(matched[preference[a][k]], preference[a][k]) >= ctr(a, preference[a][k])
  }

  /** Each matched person is the last one their advertiser proposed to. */
  ghost predicate PartnerIsLastProposal(preference: map<string, seq<string>>, cursor: map<string, int>,
                                        matched: map<string, string>)
  {
    forall p :: p in matched ==>
      matched[p] in cursor && matched[p] in preference &&
      1 <= cursor[matched[p]] <= |preference[matched[p]]| &&
      preference[matched[p]][cursor[matched[p]] - 1] == p
  }

  /** The invariant of the matching loop. */
  ghost predicate Engaged(ctr: (string, string) -> real, people: seq<string>, advertisers: seq<string>,
                          preference: map<string, seq<string>>, cursor: map<string, int>,
                          free: seq<string>, matched: map<string, string>)
  {
    && Indexed(people, advertisers, preference, cursor)
    && Partition(people, advertisers, free, matched)
    && FreeUnlessMatched(advertisers, preference, cursor, free, matched)
    && ProposalsHonoured(ctr, preference, cursor, matched)
    && PartnerIsLastProposal(preference, cursor, matched)
  }

  /** Everyone on a ranking is one of the people. */
  lemma RankedIsPerson(ctr: (string, string) -> real, people: seq<string>, preference: map<string, seq<string>>,
                       a: string, k: nat)
    requires Ranked(ctr, people, preference) && a in preference && k < |preference[a]|
    ensures preference[a][k] in people
  {
    assert IsRanking(ctr, a, preference[a], people);
    assert preference[a][k] in multiset(preference[a]);
  }

  /** Moving one advertiser's cursor on, short of the end, keeps the
      dictionaries indexed. */
  lemma IndexedAfterProposal(people: seq<string>, advertisers: seq<string>,
                             preference: map<string, seq<string>>, cursor: map<string, int>, a: string)
    requires Indexed(people, advertisers, preference, cursor)
    requires a in cursor && cursor[a] < |people|
    ensures Indexed(people, advertisers, preference, cursor[a := cursor[a] + 1])
  {
  }

  /** An unmatched person p accepts the proposer at slot i of the free list
      (its first occurrence), which leaves the list. */
  lemma PartitionAfterAcceptance(people: seq<string>, advertisers: seq<string>,
                                 free: seq<string>, matched: map<string, string>, i: nat, p: string)
    requires Partition(people, advertisers, free, matched)
    requires i < |free| && p in people && p !in matched
    ensures Partition(people, advertisers, RemoveFirst(free, free[i]), matched[p := free[i]])
  {
    var a := free[i];
    var rest, matched' := free[..i] + free[i + 1..], matched[p := a];
    DistinctDelete(free, i);
    forall q | q in matched' ensures matched'[q] !in rest {
    }
    forall q, r | q in matched' && r in matched' && q != r ensures matched'[q] != matched'[r] {
      if q != p && r != p {
        assert matched[q] != matched[r];
      }
    }
    assert Partition(people, advertisers, rest, matched');
  }

  /** A matched person p switches to the proposer at slot i of the free
      list, which leaves the list; p's previous partner goes to its end. */
  lemma PartitionAfterDisplacement(people: seq<string>, advertisers: seq<string>,
                                   free: seq<string>, matched: map<string, string>, i: nat, p: string)
    requires Partition(people, advertisers, free, matched)
    requires i < |free| && p in matched
    ensures Partition(people, advertisers, RemoveFirst(free, free[i]) + [matched[p]], matched[p := free[i]])
  {
    var a, b := free[i], matched[p];
    var rest := free[..i] + free[i + 1..];
    var free', matched' := rest + [b], matched[p := a];
    DistinctDelete(free, i);
    assert b !in rest;
    assert [b][1..] == [];
    DistinctConcat(rest, [b]);
    forall q | q in matched' ensures matched'[q] !in free' {
      if q != p {
        assert matched[q] != b;
      }
    }
    forall q, r | q in matched' && r in matched' && q != r ensures matched'[q] != matched'[r] {
      if q != p && r != p {
        assert matched[q] != matched[r];
      }
    }
  }

  /** After an acceptance the proposer, no longer free, is matched to the
      person it has just proposed to, and the displaced advertiser, if any,
      is free again; everyone else keeps partner and cursor. */
  lemma FreeUnlessMatchedAfterAcceptance(advertisers: seq<string>,
                                         preference: map<string, seq<string>>, cursor: map<string, int>,
                                         free: seq<string>, matched: map<string, string>, i: nat)
    requires FreeUnlessMatched(advertisers, preference, cursor, free, matched)
    requires Distinct(free) && i < |free| && free[i] in cursor && free[i] in preference
    requires 0 <= cursor[free[i]] < |preference[free[i]]|
    ensures var a := free[i];
      var p := preference[a][cursor[a]];
      p !in matched ==>
        FreeUnlessMatched(advertisers, preference, cursor[a := cursor[a] + 1], RemoveFirst(free, a), matched[p := a])
    ensures var a := free[i];
      var p := preference[a][cursor[a]];
      p in matched ==>
        FreeUnlessMatched(advertisers, preference, cursor[a := cursor[a] + 1],
                          RemoveFirst(free, a) + [matched[p]], matched[p := a])
  {
    var a := free[i];
    var p := preference[a][cursor[a]];
    var cursor', matched' := cursor[a := cursor[a] + 1], matched[p := a];
    var rest := free[..i] + free[i + 1..];
    DistinctDelete(free, i);
    var free' := if p in matched then rest + [matched[p]] else rest;
    forall b | b in advertisers && b !in free'
      ensures b in cursor' && b in preference && 1 <= cursor'[b] <= |preference[b]|
      ensures preference[b][cursor'[b] - 1] in matched' && matched'[preference[b][cursor'[b] - 1]] == b
    {
      if b != a {
        assert b !in free;
        var q := preference[b][cursor[b] - 1];
        if p in matched {
          assert free'[|free'| - 1] == matched[p];
        }
        assert q != p;
      }
    }
    assert FreeUnlessMatched(advertisers, preference, cursor', free', matched');
  }

  /** After a rejection the free list and the matching are unchanged and
      only a free advertiser's cursor moved. */
  lemma FreeUnlessMatchedAfterRejection(advertisers: seq<string>, preference: map<string, seq<string>>,
                                        cursor: map<string, int>, free: seq<string>,
                                        matched: map<string, string>, a: string)
    requires FreeUnlessMatched(advertisers, preference, cursor, free, matched)
    requires a in free && a in cursor
    ensures FreeUnlessMatched(advertisers, preference, cursor[a := cursor[a] + 1], free, matched)
  {
  }

  /** p accepts the proposal of a, which scores at least as high for p as
      p's partner did: every earlier proposal stays honoured and the new one
      is. */
  lemma HonouredAfterAcceptance(ctr: (string, string) -> real, preference: map<string, seq<string>>,
                                cursor: map<string, int>, matched: map<string, string>, a: string)
    requires ProposalsHonoured(ctr, preference, cursor, matched)
    requires a in cursor && a in preference && 0 <= cursor[a] < |preference[a]|
    requires var p := preference[a][cursor[a]];
      p in matched ==> ctr(a, p) >= ctr(matched[p], p)
    ensures ProposalsHonoured(ctr, preference, cursor[a := cursor[a] + 1], matched[preference[a][cursor[a]] := a])
  {
    var cursor', matched' := cursor[a := cursor[a] + 1], matched[preference[a][cursor[a]] := a];
    forall b, k | b in cursor' && b in preference && 0 <= k < cursor'[b] && k < |preference[b]|
      ensures preference[b][k] in matched' && ctr(matched'[preference[b][k]], preference[b][k]) >= ctr(b, preference[b][k])
    {
      var q := preference[b][k];
      if b != a || k < cursor[a] {
        assert q in matched && ctr(matched[q], q) >= ctr(b, q);
      }
    }
  }

  /** p turns a down, keeping a partner that scores at least as high: the
      proposal is honoured and nothing else changes. */
  lemma HonouredAfterRejection(ctr: (string, string) -> real, preference: map<string, seq<string>>,
                               cursor: map<string, int>, matched: map<string, string>, a: string)
    requires ProposalsHonoured(ctr, preference, cursor, matched)
    requires a in cursor && a in preference && 0 <= cursor[a] < |preference[a]|
    requires var p := preference[a][cursor[a]];
      p in matched && ctr(a, p) <= ctr(matched[p], p)
    ensures ProposalsHonoured(ctr, preference, cursor[a := cursor[a] + 1], matched)
  {
    var cursor' := cursor[a := cursor[a] + 1];
    forall b, k | b in cursor' && b in preference && 0 <= k < cursor'[b] && k < |preference[b]|
      ensures preference[b][k] in matched && ctr(matched[preference[b][k]], preference[b][k]) >= ctr(b, preference[b][k])
    {
      if b != a || k < cursor[a] {
        assert 0 <= k < cursor[b];
      }
    }
  }

  /** An unmatched advertiser's proposal moves only its own cursor; whether
      or not it is accepted, every partner is still its advertiser's last
      proposal. */
  lemma LastProposalAfterProposal(preference: map<string, seq<string>>, cursor: map<string, int>,
                                  matched: map<string, string>, a: string)
    requires PartnerIsLastProposal(preference, cursor, matched)
    requires a in cursor && a in preference && 0 <= cursor[a] < |preference[a]|
    requires forall q :: q in matched ==> matched[q] != a
    ensures PartnerIsLastProposal(preference, cursor[a := cursor[a] + 1], matched)
    ensures PartnerIsLastProposal(preference, cursor[a := cursor[a] + 1], matched[preference[a][cursor[a]] := a])
  {
  }

  /** A list of the people sorted by descending score for the advertiser
      is that advertiser's ranking. */
  lemma SortedIsRanking(advertiser: string, xs: seq<string>, sorted: seq<string>, people: seq<string>)
    requires multiset(xs) == multiset(people) && multiset(sorted) == multiset(xs)
    requires NonIncreasing(Ctr, advertiser, sorted)
    ensures IsRanking(Ctr, advertiser, sorted, people)
  {
    assert |multiset(sorted)| == |sorted| && |multiset(people)| == |people|;
  }

  /** Storing the sorted list of the k-th advertiser keeps the earlier
      advertisers' rankings and every list a reordering of the people. */
  lemma RankingsAfterSort(people: seq<string>, advertisers: seq<string>, preference: map<string, seq<string>>,
                          k: nat, sorted: seq<string>)
    requires k < |advertisers| && forall a :: a in preference <==> a in advertisers
    requires forall a :: a in preference ==> multiset(preference[a]) == multiset(people)
    requires forall j :: 0 <= j < k ==> IsRanking(Ctr, advertisers[j], preference[advertisers[j]], people)
    requires IsRanking(Ctr, advertisers[k], sorted, people)
    ensures var updated := preference[advertisers[k] := sorted];
      && (forall a :: a in updated <==> a in advertisers)
      && (forall a :: a in updated ==> multiset(updated[a]) == multiset(people))
      && (forall j :: 0 <= j < k + 1 ==> IsRanking(Ctr, advertisers[j], updated[advertisers[j]], people))
  {
  }

  /** The proposals the listed advertisers have still to make, with n
      people. */
  function Slack(advertisers: seq<string>, cursor: map<string, int>, n: int): nat {
    if advertisers == [] then 0
    else
      var a := advertisers[0];
      (if a in cursor && 0 <= cursor[a] <= n then n - cursor[a] else 0) + Slack(advertisers[1..], cursor, n)
  }

  /** Moving the cursor of an unlisted advertiser leaves the slack alone. */
  lemma {:induction false} SlackOther(advertisers: seq<string>, cursor: map<string, int>, n: int, a: string, v: int)
    requires a !in advertisers
    ensures Slack(advertisers, cursor[a := v], n) == Slack(advertisers, cursor, n)
  {
    if advertisers != [] {
      SlackOther(advertisers[1..], cursor, n, a, v);
    }
  }

  /** Each proposal uses up exactly one unit of slack. */
  lemma {:induction false} SlackStep(advertisers: seq<string>, cursor: map<string, int>, n: int, a: string)
    requires Distinct(advertisers) && a in advertisers && a in cursor && 0 <= cursor[a] < n
    ensures Slack(advertisers, cursor[a := cursor[a] + 1], n) == Slack(advertisers, cursor, n) - 1
  {
    var rest := advertisers[1..];
    assert forall j :: 0 <= j < |rest| ==> rest[j] == advertisers[j + 1];
    if advertisers[0] == a {
      assert a !in rest;
      SlackOther(rest, cursor, n, a, cursor[a] + 1);
    } else {
      SlackStep(rest, cursor, n, a);
    }
  }

  /** Cursors that only move forward, within the lists, leave no more
      slack. */
  lemma {:induction false} SlackMonotone(advertisers: seq<string>, cursor: map<string, int>,
                                         cursor': map<string, int>, n: int)
    requires forall a :: a in cursor <==> a in cursor'
    requires forall a :: a in cursor ==> 0 <= cursor[a] <= cursor'[a] <= n
    ensures Slack(advertisers, cursor', n) <= Slack(advertisers, cursor, n)
  {
    if advertisers != [] {
      SlackMonotone(advertisers[1..], cursor, cursor', n);
    }
  }

  /** An advertiser that has proposed to everyone on its ranking has
      proposed to every person, so every person is matched. */
  lemma ExhaustedMatchesAll(ctr: (string, string) -> real, people: seq<string>, a: string, pref: seq<string>,
                            c: int, matched: map<string, string>)
    requires IsRanking(ctr, a, pref, people) && c == |people|
    requires forall k :: 0 <= k < c ==> pref[k] in matched
    ensures Elements(people) <= matched.Keys
  {
    forall q | q in Elements(people) ensures q in matched {
      assert q in multiset(pref);
      var k :| 0 <= k < |pref| && pref[k] == q;
    }
  }

  /** An injective matching that covers every (distinct) person and leaves
      out some advertiser needs more advertisers than people. */
  lemma MoreAdvertisersThanPeople(people: seq<string>, advertisers: seq<string>,
                                  matched: map<string, string>, a: string)
    requires Distinct(people) && Distinct(advertisers)
    requires Elements(people) <= matched.Keys && Injective(matched)
    requires forall p :: p in matched ==> matched[p] in advertisers && matched[p] != a
    requires a in advertisers
    ensures |people| < |advertisers|
  {
    assert matched.Values <= Elements(advertisers) - {a};
    SubsetCard(Elements(people), matched.Keys);
    DistinctCard(people);
    InjectiveCard(matched);
    SubsetCard(matched.Values, Elements(advertisers) - {a});
    DistinctCard(advertisers);
  }

  /** With distinct names and no more advertisers than people, a free
      advertiser always has someone left to propose to. */
  lemma FreeNotExhausted(ctr: (string, string) -> real, people: seq<string>, advertisers: seq<string>,
                         preference: map<string, seq<string>>, cursor: map<string, int>,
                         free: seq<string>, matched: map<string, string>, a: string)
    requires Engaged(ctr, people, advertisers, preference, cursor, free, matched)
    requires Ranked(ctr, people, preference)
    requires Distinct(people) && Distinct(advertisers) && |advertisers| <= |people|
    requires a in free
    ensures cursor[a] < |people|
  {
    if cursor[a] == |people| {
      assert IsRanking(ctr, a, preference[a], people);
      ExhaustedMatchesAll(ctr, people, a, preference[a], cursor[a], matched);
      MoreAdvertisersThanPeople(people, advertisers, matched, a);
      assert false;
    }
  }

  /** No advertiser strictly prefers a person to its partner while that
      person's own partner scores lower for them than that advertiser does. */
  ghost predicate Stable(ctr: (string, string) -> real, people: seq<string>, matched: map<string, string>) {
    forall p, q :: p in matched && q in people && ctr(matched[p], q) > ctr(matched[p], p) ==>
      q in matched && ctr(matched[q], q) >= ctr(matched[p], q)
  }

  /** In a ranking by a's score, anyone a scores strictly above the entry
      at c - 1 sits before it. */
  lemma RankedAhead(ctr: (string, string) -> real, people: seq<string>, a: string, pref: seq<string>,
                    c: int, q: string)
    returns (j: nat)
    requires IsRanking(ctr, a, pref, people) && 1 <= c <= |pref|
    requires q in people && ctr(a, q) > ctr(a, pref[c - 1])
    ensures j < c - 1 && pref[j] == q
  {
    assert q in multiset(pref);
    j :| 0 <= j < |pref| && pref[j] == q;
    if j >= c - 1 {
      assert false;
    }
  }

  /** The loop invariant already rules out blocking pairs: anyone an
      advertiser strictly prefers to its partner is ranked ahead of the
      partner and was therefore proposed to. */
  lemma EngagedIsStable(ctr: (string, string) -> real, people: seq<string>, advertisers: seq<string>,
                        preference: map<string, seq<string>>, cursor: map<string, int>,
                        free: seq<string>, matched: map<string, string>)
    requires Engaged(ctr, people, advertisers, preference, cursor, free, matched)
    requires Ranked(ctr, people, preference)
    ensures Stable(ctr, people, matched)
  {
    HonouredIsStable(ctr, people, preference, cursor, matched);
  }

  lemma HonouredIsStable(ctr: (string, string) -> real, people: seq<string>, preference: map<string, seq<string>>,
                         cursor: map<string, int>, matched: map<string, string>)
    requires Ranked(ctr, people, preference)
    requires ProposalsHonoured(ctr, preference, cursor, matched)
    requires PartnerIsLastProposal(preference, cursor, matched)
    ensures Stable(ctr, people, matched)
  {
    forall p, q | p in matched && q in people && ctr(matched[p], q) > ctr(matched[p], p)
      ensures q in matched && ctr(matched[q], q) >= ctr(matched[p], q)
    {
      var a := matched[p];
      assert IsRanking(ctr, a, preference[a], people);
      var j := RankedAhead(ctr, people, a, preference[a], cursor[a], q);
    }
  }

  /** The sum printed at line 65: GetCTR(person, advertiser) over every
      entry of the matching, with the person first as at line 63. */
  ghost function TotalCtr(matched: map<string, string>): (r: real)
    ensures r >= 0.0
    decreases matched.Keys
  {
    if matched == map[] then 0.0
    else
      var p :| p in matched;
      assert (matched - {p}).Keys == matched.Keys - {p};
      Ctr(p, matched[p]) + TotalCtr(matched - {p})
  }

  /** The sum does not depend on the order the entries are visited in. */
  lemma {:induction false} TotalCtrRemove(matched: map<string, string>, p: string)
    requires p in matched
    ensures TotalCtr(matched) == Ctr(p, matched[p]) + TotalCtr(matched - {p})
    decreases matched.Keys
  {
    var q :| q in matched && TotalCtr(matched) == Ctr(q, matched[q]) + TotalCtr(matched - {q});
    if q != p {
      assert (matched - {q}).Keys == matched.Keys - {q};
      assert (matched - {p}).Keys == matched.Keys - {p};
      TotalCtrRemove(matched - {q}, p);
      TotalCtrRemove(matched - {p}, q);
      assert matched - {q} - {p} == matched - {p} - {q};
    }
  }

  /** The state of the matching loop: the cursors, the free list and the
      matching from people to advertisers. */
  datatype State = State(cursor: map<string, int>, free: seq<string>, matched: map<string, string>)

  /** One pass of the inner loop body (lines 32-56) for the advertiser at
      slot i of the free list. An advertiser that has proposed to everyone is
      skipped. Otherwise it proposes to the next person on its ranking: an
      unmatched person accepts; a matched person switches only when the
      proposer scores strictly higher for them, and the displaced advertiser
      joins the end of the free list. The cursor moves on in every case. */
  function Proposal(ctr: (string, string) -> real, people: seq<string>, preference: map<string, seq<string>>,
                    s: State, i: nat): State
    requires i < |s.free| && s.free[i] in s.cursor && s.free[i] in preference
    requires 0 <= s.cursor[s.free[i]] <= |people| == |preference[s.free[i]]|
  {
    var a := s.free[i];
    var c := s.cursor[a];
    if c == |people| then s
    else
      var p := preference[a][c];
      var cursor' := s.cursor[a := c + 1];
      if p !in s.matched then
        State(cursor', RemoveFirst(s.free, a), s.matched[p := a])
      else if ctr(a, p) > ctr(s.matched[p], p) then
        State(cursor', RemoveFirst(s.free, a) + [s.matched[p]], s.matched[p := a])
      else
        State(cursor', s.free, s.matched)
  }

  /** A proposal keeps both dictionaries indexed. */
  lemma ProposalKeepsIndexed(ctr: (string, string) -> real, people: seq<string>, advertisers: seq<string>,
                             preference: map<string, seq<string>>, s: State, i: nat)
    requires i < |s.free| && s.free[i] in s.cursor && s.free[i] in preference
    requires 0 <= s.cursor[s.free[i]] <= |people| == |preference[s.free[i]]|
    requires Indexed(people, advertisers, preference, s.cursor)
    ensures Indexed(people, advertisers, preference, Proposal(ctr, people, preference, s, i).cursor)
  {
    var a := s.free[i];
    if s.cursor[a] < |people| {
      IndexedAfterProposal(people, advertisers, preference, s.cursor, a);
    }
  }

  /** A proposal to one of the people keeps the free list and the matching
      a partition of the advertisers. */
  lemma ProposalKeepsPartition(ctr: (string, string) -> real, people: seq<string>, advertisers: seq<string>,
                               preference: map<string, seq<string>>, s: State, i: nat)
    requires i < |s.free| && s.free[i] in s.cursor && s.free[i] in preference
    requires 0 <= s.cursor[s.free[i]] <= |people| == |preference[s.free[i]]|
    requires Partition(people, advertisers, s.free, s.matched)
    requires s.cursor[s.free[i]] < |people| ==> preference[s.free[i]][s.cursor[s.free[i]]] in people
    ensures var t := Proposal(ctr, people, preference, s, i);
      Partition(people, advertisers, t.free, t.matched)
  {
    var a := s.free[i];
    if s.cursor[a] < |people| {
      var p := preference[a][s.cursor[a]];
      if p !in s.matched {
        PartitionAfterAcceptance(people, advertisers, s.free, s.matched, i, p);
      } else if ctr(a, p) > ctr(s.matched[p], p) {
        PartitionAfterDisplacement(people, advertisers, s.free, s.matched, i, p);
      }
    }
  }

  /** A proposal keeps every advertiser off the free list matched to its
      last proposal. */
  lemma ProposalKeepsFreeUnlessMatched(ctr: (string, string) -> real, people: seq<string>, advertisers: seq<string>,
                                       preference: map<string, seq<string>>, s: State, i: nat)
    requires i < |s.free| && s.free[i] in s.cursor && s.free[i] in preference
    requires 0 <= s.cursor[s.free[i]] <= |people| == |preference[s.free[i]]|
    requires FreeUnlessMatched(advertisers, preference, s.cursor, s.free, s.matched)
    requires Distinct(s.free)
    ensures var t := Proposal(ctr, people, preference, s, i);
      FreeUnlessMatched(advertisers, preference, t.cursor, t.free, t.matched)
  {
    var a := s.free[i];
    if s.cursor[a] < |people| {
      var p := preference[a][s.cursor[a]];
      if p !in s.matched || ctr(a, p) > ctr(s.matched[p], p) {
        FreeUnlessMatchedAfterAcceptance(advertisers, preference, s.cursor, s.free, s.matched, i);
      } else {
        FreeUnlessMatchedAfterRejection(advertisers, preference, s.cursor, s.free, s.matched, a);
      }
    }
  }

  /** A proposal keeps every proposal made so far honoured. */
  lemma ProposalKeepsHonoured(ctr: (string, string) -> real, people: seq<string>,
                              preference: map<string, seq<string>>, s: State, i: nat)
    requires i < |s.free| && s.free[i] in s.cursor && s.free[i] in preference
    requires 0 <= s.cursor[s.free[i]] <= |people| == |preference[s.free[i]]|
    requires ProposalsHonoured(ctr, preference, s.cursor, s.matched)
    ensures var t := Proposal(ctr, people, preference, s, i);
      ProposalsHonoured(ctr, preference, t.cursor, t.matched)
  {
    var a := s.free[i];
    if s.cursor[a] < |people| {
      var p := preference[a][s.cursor[a]];
      if p !in s.matched || ctr(a, p) > ctr(s.matched[p], p) {
        HonouredAfterAcceptance(ctr, preference, s.cursor, s.matched, a);
      } else {
        HonouredAfterRejection(ctr, preference, s.cursor, s.matched, a);
      }
    }
  }

  /** A proposal by a free advertiser keeps every partner its advertiser's
      last proposal. */
  lemma ProposalKeepsLastProposal(ctr: (string, string) -> real, people: seq<string>, advertisers: seq<string>,
                                  preference: map<string, seq<string>>, s: State, i: nat)
    requires i < |s.free| && s.free[i] in s.cursor && s.free[i] in preference
    requires 0 <= s.cursor[s.free[i]] <= |people| == |preference[s.free[i]]|
    requires PartnerIsLastProposal(preference, s.cursor, s.matched)
    requires Partition(people, advertisers, s.free, s.matched)
    ensures var t := Proposal(ctr, people, preference, s, i);
      PartnerIsLastProposal(preference, t.cursor, t.matched)
  {
    var a := s.free[i];
    if s.cursor[a] < |people| {
      LastProposalAfterProposal(preference, s.cursor, s.matched, a);
    }
  }

  /** A skipped advertiser changes nothing; a proposal moves the
      proposer's cursor on by one. Either way no matched person becomes
      unmatched and every partner change is a strict improvement for the
      person, by the score the person is offered. */
  lemma ProposalProgress(ctr: (string, string) -> real, people: seq<string>, preference: map<string, seq<string>>,
                         s: State, i: nat)
    requires i < |s.free| && s.free[i] in s.cursor && s.free[i] in preference
    requires 0 <= s.cursor[s.free[i]] <= |people| == |preference[s.free[i]]|
    ensures var t := Proposal(ctr, people, preference, s, i);
      && (s.cursor[s.free[i]] == |people| <==> t == s)
      && (s.cursor[s.free[i]] < |people| ==> t.cursor == s.cursor[s.free[i] := s.cursor[s.free[i]] + 1])
      && s.matched.Keys <= t.matched.Keys
      && (forall q :: q in s.matched ==>
            t.matched[q] == s.matched[q] || ctr(t.matched[q], q) > ctr(s.matched[q], q))
    ensures |Proposal(ctr, people, preference, s, i).free| <= |s.free|
  {
    assert s.free[i] in s.free;
  }

  /** Every proposal keeps the invariant of the matching loop. */
  lemma ProposalKeepsEngaged(ctr: (string, string) -> real, people: seq<string>, advertisers: seq<string>,
                             preference: map<string, seq<string>>, s: State, i: nat)
    requires Engaged(ctr, people, advertisers, preference, s.cursor, s.free, s.matched)
    requires Ranked(ctr, people, preference) && i < |s.free|
    ensures s.free[i] in s.cursor && s.free[i] in preference
    ensures 0 <= s.cursor[s.free[i]] <= |people| == |preference[s.free[i]]|
    ensures var t := Proposal(ctr, people, preference, s, i);
      Engaged(ctr, people, advertisers, preference, t.cursor, t.free, t.matched)
  {
    var a := s.free[i];
    assert a in advertisers;
    if s.cursor[a] < |people| {
      RankedIsPerson(ctr, people, preference, a, s.cursor[a]);
    }
    ProposalKeepsIndexed(ctr, people, advertisers, preference, s, i);
    ProposalKeepsPartition(ctr, people, advertisers, preference, s, i);
    ProposalKeepsFreeUnlessMatched(ctr, people, advertisers, preference, s, i);
    ProposalKeepsHonoured(ctr, people, preference, s, i);
    ProposalKeepsLastProposal(ctr, people, advertisers, preference, s, i);
  }

  /** A proposal that is made uses up one unit of slack. */
  lemma ProposalUsesSlack(ctr: (string, string) -> real, people: seq<string>, advertisers: seq<string>,
                          preference: map<string, seq<string>>, s: State, i: nat)
    requires Distinct(advertisers) && i < |s.free| && s.free[i] in advertisers
    requires s.free[i] in s.cursor && s.free[i] in preference
    requires 0 <= s.cursor[s.free[i]] < |people| == |preference[s.free[i]]|
    ensures var t := Proposal(ctr, people, preference, s, i);
      Slack(advertisers, t.cursor, |people|) == Slack(advertisers, s.cursor, |people|) - 1
  {
    SlackStep(advertisers, s.cursor, |people|, s.free[i]);
  }

  /** Every advertiser with a cursor has a list of one slot per person and
      a cursor within it, and every free or matched advertiser has a
      cursor: the advertiser at any slot of the free list can take its turn. */
  ghost predicate Proposable(people: seq<string>, preference: map<string, seq<string>>, s: State) {
    && (forall a :: a in s.cursor ==> a in preference && 0 <= s.cursor[a] <= |people| == |preference[a]|)
    && (forall a :: a in s.free ==> a in s.cursor)
    && (forall q :: q in s.matched ==> s.matched[q] in s.cursor)
  }

  /** The loop invariant lets every free advertiser take its turn. */
  lemma EngagedIsProposable(ctr: (string, string) -> real, people: seq<string>, advertisers: seq<string>,
                            preference: map<string, seq<string>>, s: State)
    requires Engaged(ctr, people, advertisers, preference, s.cursor, s.free, s.matched)
    ensures Proposable(people, preference, s)
  {
  }

  /** Removing an element keeps only elements of the list. */
  lemma {:induction false} RemoveFirstWithin<T>(s: seq<T>, x: T)
    ensures forall y :: y in RemoveFirst(s, x) ==> y in s
  {
    if s != [] && s[0] != x {
      RemoveFirstWithin(s[1..], x);
    }
  }

  /** A proposal leaves every advertiser able to take its turn. */
  lemma ProposalKeepsProposable(ctr: (string, string) -> real, people: seq<string>,
                                preference: map<string, seq<string>>, s: State, i: nat)
    requires Proposable(people, preference, s) && i < |s.free|
    ensures s.free[i] in s.cursor && s.free[i] in preference
    ensures 0 <= s.cursor[s.free[i]] <= |people| == |preference[s.free[i]]|
    ensures Proposable(people, preference, Proposal(ctr, people, preference, s, i))
  {
    assert s.free[i] in s.free;
    RemoveFirstWithin(s.free, s.free[i]);
  }

  /** The rest of one pass of the for loop of lines 31-57 from slot i: the
      advertiser at slot i takes its turn (Proposal), then the pass goes on
      at slot i + 1 of the free list as that turn left it. So an element
      that moves into slot i when the proposer is removed is skipped in this
      pass, and an advertiser appended to the list is visited in it when it
      lands past the current slot. Across the pass no advertiser gains or
      loses a cursor, no cursor goes down and no matched person becomes
      unmatched. */
  ghost function Round(ctr: (string, string) -> real, people: seq<string>,
                       preference: map<string, seq<string>>, s: State, i: nat): (r: State)
    requires Proposable(people, preference, s)
    ensures Proposable(people, preference, r)
    ensures r.cursor.Keys == s.cursor.Keys && s.matched.Keys <= r.matched.Keys
    ensures forall a :: a in s.cursor ==> s.cursor[a] <= r.cursor[a]
    decreases |s.free| - i
  {
    if |s.free| <= i then s
    else
      ProposalKeepsProposable(ctr, people, preference, s, i);
      ProposalProgress(ctr, people, preference, s, i);
      Round(ctr, people, preference, Proposal(ctr, people, preference, s, i), i + 1)
  }

  /** The walk by index skips an advertiser that moves into the visited
      slot: with free list [a, b], when a is accepted the list becomes [b]
      and the pass ends without b proposing. */
  lemma RoundSkipsShifted(ctr: (string, string) -> real, people: seq<string>,
                          preference: map<string, seq<string>>, s: State)
    requires Proposable(people, preference, s) && |s.free| == 2 && s.free[0] != s.free[1]
    requires s.cursor[s.free[0]] < |people| && preference[s.free[0]][s.cursor[s.free[0]]] !in s.matched
    ensures var r := Round(ctr, people, preference, s, 0);
      r.free == [s.free[1]] && r.cursor[s.free[1]] == s.cursor[s.free[1]]
  {
    var a, b := s.free[0], s.free[1];
    assert s.free == [a] + [b];
    var t := Proposal(ctr, people, preference, s, 0);
    assert t.free == [b];
    ProposalKeepsProposable(ctr, people, preference, s, 0);
    assert Round(ctr, people, preference, s, 0) == Round(ctr, people, preference, t, 1) == t;
  }

  /** A whole pass keeps the invariant of the matching loop. */
  lemma {:induction false} RoundKeepsEngaged(ctr: (string, string) -> real, people: seq<string>,
                                             advertisers: seq<string>, preference: map<string, seq<string>>,
                                             s: State, i: nat)
    requires Engaged(ctr, people, advertisers, preference, s.cursor, s.free, s.matched)
    requires Ranked(ctr, people, preference)
    ensures Proposable(people, preference, s)
    ensures var r := Round(ctr, people, preference, s, i);
      Engaged(ctr, people, advertisers, preference, r.cursor, r.free, r.matched)
    decreases |s.free| - i
  {
    EngagedIsProposable(ctr, people, advertisers, preference, s);
    if i < |s.free| {
      ProposalKeepsEngaged(ctr, people, advertisers, preference, s, i);
      ProposalProgress(ctr, people, preference, s, i);
      RoundKeepsEngaged(ctr, people, advertisers, preference, Proposal(ctr, people, preference, s, i), i + 1);
    }
  }

  /** A pass whose first advertiser has someone left to propose to uses up
      slack: that proposal uses up one unit, and the rest of the pass only
      moves cursors forward. */
  lemma RoundUsesSlack(ctr: (string, string) -> real, people: seq<string>, advertisers: seq<string>,
                       preference: map<string, seq<string>>, s: State)
    requires Engaged(ctr, people, advertisers, preference, s.cursor, s.free, s.matched)
    requires Distinct(advertisers) && s.free != [] && s.cursor[s.free[0]] < |people|
    ensures Proposable(people, preference, s)
    ensures Slack(advertisers, Round(ctr, people, preference, s, 0).cursor, |people|)
          < Slack(advertisers, s.cursor, |people|)
  {
    EngagedIsProposable(ctr, people, advertisers, preference, s);
    ProposalKeepsProposable(ctr, people, preference, s, 0);
    ProposalUsesSlack(ctr, people, advertisers, preference, s, 0);
    var t := Proposal(ctr, people, preference, s, 0);
    var r := Round(ctr, people, preference, t, 1);
    assert Round(ctr, people, preference, s, 0) == r;
    SlackMonotone(advertisers, t.cursor, r.cursor, |people|);
  }

  /** The while loop of lines 30-58: passes of the for loop (Round) from
      slot 0 until the free list is empty. With distinct names and no more
      advertisers than people every pass uses up slack, so the loop ends,
      with every advertiser matched and the invariant still holding. */
  ghost function Run(ctr: (string, string) -> real, people: seq<string>, advertisers: seq<string>,
                     preference: map<string, seq<string>>, s: State): (r: State)
    requires Engaged(ctr, people, advertisers, preference, s.cursor, s.free, s.matched)
    requires Ranked(ctr, people, preference)
    requires Distinct(people) && Distinct(advertisers) && |advertisers| <= |people|
    ensures r.free == []
    ensures Engaged(ctr, people, advertisers, preference, r.cursor, r.free, r.matched)
    decreases Slack(advertisers, s.cursor, |people|)
  {
    if s.free == [] then s
    else
      FreeNotExhausted(ctr, people, advertisers, preference, s.cursor, s.free, s.matched, s.free[0]);
      RoundKeepsEngaged(ctr, people, advertisers, preference, s, 0);
      RoundUsesSlack(ctr, people, advertisers, preference, s);
      Run(ctr, people, advertisers, preference, Round(ctr, people, preference, s, 0))
  }

  /** One pass of the while loop: the pass keeps the invariant, uses up
      slack, and leaves the rest of the loop to do what the whole loop does
      from here. */
  lemma RunStep(ctr: (string, string) -> real, people: seq<string>, advertisers: seq<string>,
                preference: map<string, seq<string>>, s: State)
    requires Engaged(ctr, people, advertisers, preference, s.cursor, s.free, s.matched)
    requires Ranked(ctr, people, preference)
    requires Distinct(people) && Distinct(advertisers) && |advertisers| <= |people| && s.free != []
    ensures Proposable(people, preference, s)
    ensures var r := Round(ctr, people, preference, s, 0);
      && Engaged(ctr, people, advertisers, preference, r.cursor, r.free, r.matched)
      && Slack(advertisers, r.cursor, |people|) < Slack(advertisers, s.cursor, |people|)
      && Run(ctr, people, advertisers, preference, r) == Run(ctr, people, advertisers, preference, s)
  {
    FreeNotExhausted(ctr, people, advertisers, preference, s.cursor, s.free, s.matched, s.free[0]);
    RoundKeepsEngaged(ctr, people, advertisers, preference, s, 0);
    RoundUsesSlack(ctr, people, advertisers, preference, s);
  }

  /** Before the loop every advertiser is free, nobody is matched and no
      cursor has moved: the invariant holds. */
  lemma EngagedAtStart(ctr: (string, string) -> real, people: seq<string>, advertisers: seq<string>,
                       preference: map<string, seq<string>>, cursor: map<string, int>)
    requires Indexed(people, advertisers, preference, cursor) && Distinct(advertisers)
    requires forall a :: a in cursor ==> cursor[a] == 0
    ensures Engaged(ctr, people, advertisers, preference, cursor, advertisers, map[])
  {
  }

  /** Once the free list is empty every advertiser is matched, each to a
      different person. */
  lemma AllMatched(ctr: (string, string) -> real, people: seq<string>, advertisers: seq<string>,
                   preference: map<string, seq<string>>, cursor: map<string, int>, matched: map<string, string>)
    requires Engaged(ctr, people, advertisers, preference, cursor, [], matched)
    ensures matched.Values == Elements(advertisers)
    ensures forall p :: p in matched ==> p in people
    ensures Injective(matched)
  {
    forall a | a in Elements(advertisers) ensures a in matched.Values {
      var q := preference[a][cursor[a] - 1];
      assert q in matched && matched[q] == a;
    }
  }

  /** Lines 60-65 without the printing: adds up GetCTR(person, advertiser)
      over the entries of the matching, in whatever order they come. */
  method SumCtr(matched: map<string, string>) returns (sum: real)
    ensures sum == TotalCtr(matched)
  {
    sum := 0.0;
    var pending := matched.Keys;
    assert matched == map q | q in pending :: matched[q];
    while pending != {}
      invariant pending <= matched.Keys
      invariant sum + TotalCtr(map q | q in pending :: matched[q]) == TotalCtr(matched)
      decreases pending
    {
      var person :| person in pending;
      var rest := map q | q in pending :: matched[q];
      TotalCtrRemove(rest, person);
      assert rest - {person} == map q | q in pending - {person} :: matched[q];
      var score := GetCtr(person, matched[person]);
      sum := sum + score;
      pending := pending - {person};
    }
  }

  /** The matcher: `people` and `advertisers` are the two input lists,
      `preference` and `cursor` the per-advertiser preference list and its
      index into it. */
  class Matching {
    const people: seq<string>
    const advertisers: seq<string>
    var preference: map<string, seq<string>>
    var cursor: map<string, int>

    ghost predicate Valid()
      reads this
    {
      WellFormed(Ctr, people, advertisers, preference, cursor)
    }

    /** The constructor (lines 15-21): keeps the two lists and builds the
        preference lists and cursors. */
    constructor (people: seq<string>, advertisers: seq<string>)
      ensures this.people == people && this.advertisers == advertisers
      ensures Valid()
      ensures forall a :: a in cursor ==> cursor[a] == 0
    {
      this.people := people;
      this.advertisers := advertisers;
      cursor := map[];
      preference := map[];
      new;
      GenerateAdvertisersPreferenceList();
    }

    /** Lines 69-77: every advertiser gets cursor 0 and a copy of the people
        list, then each copy is sorted by that advertiser's score. */
    method GenerateAdvertisersPreferenceList()
      requires preference == map[] && cursor == map[]
      modifies this`preference, this`cursor
      ensures Valid()
      ensures forall a :: a in cursor ==> cursor[a] == 0
    {
      for k := 0 to |advertisers|
        invariant forall a :: a in preference <==> a in advertisers[..k]
        invariant forall a :: a in cursor <==> a in advertisers[..k]
        invariant forall a :: a in preference ==> preference[a] == people
        invariant forall a :: a in cursor ==> cursor[a] == 0
      {
        assert advertisers[..k + 1] == advertisers[..k] + [advertisers[k]];
        cursor := cursor[advertisers[k] := 0];
        preference := preference[advertisers[k] := people];
      }
      assert advertisers[..|advertisers|] == advertisers;
      for k := 0 to |advertisers|
        modifies this`preference
        invariant forall a :: a in preference <==> a in advertisers
        invariant forall a :: a in preference ==> multiset(preference[a]) == multiset(people)
        invariant forall j :: 0 <= j < k ==> IsRanking(Ctr, advertisers[j], preference[advertisers[j]], people)
      {
        var advertiser := advertisers[k];
        var sorted := SortDescending(Ctr, advertiser, preference[advertiser]);
        SortedIsRanking(advertiser, preference[advertiser], sorted, people);
        RankingsAfterSort(people, advertisers, preference, k, sorted);
        preference := preference[advertiser := sorted];
      }
      forall a | a in preference ensures IsRanking(Ctr, a, preference[a], people) {
        var j :| 0 <= j < |advertisers| && advertisers[j] == a;
      }
    }

    /** Lines 32-56, the inner loop body for the advertiser at slot i of
        the free list, as Proposal specifies it. */
    method Propose(free: seq<string>, matched: map<string, string>, i: nat)
      returns (free': seq<string>, matched': map<string, string>)
      requires i < |free| && free[i] in cursor && free[i] in preference
      requires 0 <= cursor[free[i]] <= |people| == |preference[free[i]]|
      modifies this`cursor
      ensures State(cursor, free', matched') == Proposal(Ctr, people, preference, State(old(cursor), free, matched), i)
    {
      free', matched' := free, matched;
      var freeAdvertiser := free[i];
      if cursor[freeAdvertiser] == |people| {
        return;
      }
      var preferredPersonIndex := cursor[freeAdvertiser];
      var preferredPerson := preference[freeAdvertiser][preferredPersonIndex];
      if preferredPerson !in matched' {
        matched' := matched'[preferredPerson := freeAdvertiser];
        free' := RemoveFirst(free', freeAdvertiser);
      } else {
        var matchedAdvertiser := matched'[preferredPerson];
        var newCtr := GetCtr(freeAdvertiser, preferredPerson);
        var oldCtr := GetCtr(matchedAdvertiser, preferredPerson);
        if newCtr > oldCtr {
          matched' := matched'[preferredPerson := freeAdvertiser];
          free' := RemoveFirst(free', freeAdvertiser);
          free' := free' + [matchedAdvertiser];
        }
      }
      cursor := cursor[freeAdvertiser := cursor[freeAdvertiser] + 1];
    }

    /** One pass of the for loop of lines 31-57 over the free list, which
        changes under it, as Round specifies it. RoundKeepsEngaged and
        RoundUsesSlack say what a pass does for the matching loop. */
    method ProposeRound(free: seq<string>, matched: map<string, string>)
      returns (free': seq<string>, matched': map<string, string>)
      requires Proposable(people, preference, State(cursor, free, matched))
      modifies this`cursor
      ensures State(cursor, free', matched') == Round(Ctr, people, preference, State(old(cursor), free, matched), 0)
    {
      ghost var start := State(cursor, free, matched);
      free', matched' := free, matched;
      var i := 0;
      while i < |free'|
        invariant Proposable(people, preference, State(cursor, free', matched'))
        invariant Round(Ctr, people, preference, State(cursor, free', matched'), i)
               == Round(Ctr, people, preference, start, 0)
        decreases |free'| - i
      {
        ghost var before := State(cursor, free', matched');
        ProposalKeepsProposable(Ctr, people, preference, before, i);
        ProposalProgress(Ctr, people, preference, before, i);
        free', matched' := Propose(free', matched', i);
        i := i + 1;
      }
    }

    /** PrintMaxMatching (lines 26-66) without the printing: the
        propose-and-reject loop, then the sum of the scores of the final
        pairs. Returns the matching (person to advertiser) and the sum. */
    method MaxMatching() returns (matched: map<string, string>, sum: real)
      requires Valid()
      requires Distinct(people) && Distinct(advertisers) && |advertisers| <= |people|
      requires forall a :: a in cursor ==> cursor[a] == 0
      modifies this`cursor
      ensures Valid()
      ensures forall p :: p in matched ==> p in people
      ensures Injective(matched)
      ensures matched.Values == Elements(advertisers)
      ensures Stable(Ctr, people, matched)
      ensures ProposalsHonoured(Ctr, preference, cursor, matched)
      ensures PartnerIsLastProposal(preference, cursor, matched)
      ensures sum == TotalCtr(matched)
      ensures Engaged(Ctr, people, advertisers, preference, old(cursor), advertisers, map[])
      ensures State(cursor, [], matched) == Run(Ctr, people, advertisers, preference, State(old(cursor), advertisers, map[]))
    {
      var free := advertisers;
      matched := map[];
      EngagedAtStart(Ctr, people, advertisers, preference, cursor);
      ghost var start := State(cursor, free, matched);
      while |free| > 0
        invariant Engaged(Ctr, people, advertisers, preference, cursor, free, matched)
        invariant Ranked(Ctr, people, preference)
        invariant Run(Ctr, people, advertisers, preference, State(cursor, free, matched))
               == Run(Ctr, people, advertisers, preference, start)
        decreases Slack(advertisers, cursor, |people|)
      {
        ghost var before := State(cursor, free, matched);
        RunStep(Ctr, people, advertisers, preference, before);
        free, matched := ProposeRound(free, matched);
        assert Engaged(Ctr, people, advertisers, preference, cursor, free, matched);
      }
      AllMatched(Ctr, people, advertisers, preference, cursor, matched);
      EngagedIsStable(Ctr, people, advertisers, preference, cursor, free, matched);
      sum := SumCtr(matched);
    }
  }
}
