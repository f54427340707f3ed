/**
 * Knights propose to ladies (a1/marriage.py, `check_pref` at lines 81-84 and
 * `stable` at lines 92-121): the Gale-Shapley procedure on two dictionaries
 * from a name to a preference list.
 */
module Marriage {
  import opened Outcomes

  /** The value the source stores for a lady with no partner. */
  const FREE: string := "free"

  /** Python's `list.index`: the position of the first occurrence. */
  function IndexOf(s: seq<string>, x: string): (i: nat)
    requires x in s
    ensures i < |s| && s[i] == x && forall j :: 0 <= j < i ==> s[j] != x
  {
    if s[0] == x then 0 else 1 + IndexOf(s[1..], x)
  }

  /** `a` occurs in `s` before any occurrence of `b`. */
  ghost predicate Before(s: seq<string>, a: string, b: string) {
    exists i :: 0 <= i < |s| && s[i] == a && b !in s[..i + 1]
  }

  lemma BeforeIndex(s: seq<string>, a: string, b: string)
    requires a in s && b in s
    ensures Before(s, a, b) <==> IndexOf(s, a) < IndexOf(s, b)
  {
    var ia, ib := IndexOf(s, a), IndexOf(s, b);
    if Before(s, a, b) {
      var i :| 0 <= i < |s| && s[i] == a && b !in s[..i + 1];
      forall j | 0 <= j <= i ensures s[j] != b {
        assert s[..i + 1][j] == s[j];
      }
    }
    if ia < ib {
      assert s[ia] == a && b !in s[..ia + 1];
    }
  }

  /**
   * `check_pref` (lines 81-84): false exactly when the lady's list names her
   * partner before the new knight. Either name missing from the list is a
   * `ValueError` from `list.index`.
   */
  function CheckPref(knight: string, engaged: string, lPref: seq<string>): (r: Result<bool>)
    ensures r.Ok? <==> engaged in lPref && knight in lPref
    ensures r.Err? ==> r.error == ValueError
    ensures r == Ok(false) <==> knight in lPref && Before(lPref, engaged, knight)
  {
    if engaged !in lPref || knight !in lPref then Err(ValueError)
    else
      BeforeIndex(lPref, engaged, knight);
      if IndexOf(lPref, engaged) < IndexOf(lPref, knight) then Ok(false) else Ok(true)
  }

  ghost predicate Distinct(s: seq<string>) {
    forall i, j :: 0 <= i < j < |s| ==> s[i] != s[j]
  }

  /** `rest` is what is left of `orig` once some of its heads were popped. */
  ghost predicate Suffix(rest: seq<string>, orig: seq<string>) {
    |rest| <= |orig| && rest == orig[|orig| - |rest|..]
  }

  /** Lady `l` turned knight `k` down: she is engaged to a knight she lists before him. */
  ghost predicate Rejected(ladies: map<string, seq<string>>, partner: map<string, string>, l: string, k: string) {
    && l in partner && l in ladies
    && partner[l] != FREE
    && partner[l] in ladies[l] && k in ladies[l]
    && IndexOf(ladies[l], partner[l]) < IndexOf(ladies[l], k)
  }

  /**
   * What the loop of `stable` keeps for any input: the ladies keep their keys,
   * the knights' lists only lose heads, the free knights are distinct knights,
   * and a lady is free or holds a knight.
   */
  ghost predicate Shape(knights: map<string, seq<string>>, ladies: map<string, seq<string>>,
                        kFree: seq<string>, partner: map<string, string>, prefs: map<string, seq<string>>) {
    && partner.Keys == ladies.Keys
    && prefs.Keys == knights.Keys
    && (forall k :: k in prefs ==> Suffix(prefs[k], knights[k]))
    && Distinct(kFree)
    && (forall i :: 0 <= i < |kFree| ==> kFree[i] in knights)
    && (forall l :: l in partner ==> partner[l] == FREE || partner[l] in knights)
  }

  /**
   * What the loop keeps when no knight is called "free": `wife` takes each
   * engaged knight to his lady and back; a knight is free exactly when he has
   * none; an engaged knight's list starts with his lady; and every lady a
   * knight has dropped from his list turned him down.
   */
  ghost predicate Engagements(knights: map<string, seq<string>>, ladies: map<string, seq<string>>,
                              kFree: seq<string>, partner: map<string, string>, prefs: map<string, seq<string>>,
                              wife: map<string, string>) {
    && (forall l :: l in partner && partner[l] != FREE ==> partner[l] in wife && wife[partner[l]] == l)
    && (forall k :: k in wife ==>
          && k in knights && k in prefs && k !in kFree
          && wife[k] in partner && partner[wife[k]] == k
          && prefs[k] != [] && prefs[k][0] == wife[k])
    && (forall k :: k in knights ==> k in kFree || k in wife)
    && Dropped(knights, ladies, partner, prefs)
  }

  /** Every lady a knight has dropped from his list turned him down. */
  ghost predicate Dropped(knights: map<string, seq<string>>, ladies: map<string, seq<string>>,
                          partner: map<string, string>, prefs: map<string, seq<string>>) {
    forall k, i :: k in knights && k in prefs && 0 <= i < |knights[k]| - |prefs[k]| ==>
      Rejected(ladies, partner, knights[k][i], k)
  }

  /** A lady who takes a knight she lists no later than her partner turns down no one she turned down before. */
  lemma DroppedKept(knights: map<string, seq<string>>, ladies: map<string, seq<string>>,
                    partner: map<string, string>, prefs: map<string, seq<string>>, lady: string, knight: string)
    requires Dropped(knights, ladies, partner, prefs)
    requires lady in partner && lady in ladies && knight != FREE
    requires partner[lady] != FREE ==>
      && knight in ladies[lady] && partner[lady] in ladies[lady]
      && IndexOf(ladies[lady], knight) <= IndexOf(ladies[lady], partner[lady])
    ensures Dropped(knights, ladies, partner[lady := knight], prefs)
  {
    var after := partner[lady := knight];
    forall k, i | k in knights && k in prefs && 0 <= i < |knights[k]| - |prefs[k]|
      ensures Rejected(ladies, after, knights[k][i], k)
    {
      assert Rejected(ladies, partner, knights[k][i], k);
    }
  }

  /** Equal numbers of knights and ladies, and every list names everyone of the other side. */
  ghost predicate Complete(knights: map<string, seq<string>>, ladies: map<string, seq<string>>) {
    && |knights.Keys| == |ladies.Keys|
    && (forall k, l :: k in knights ==> (l in knights[k] <==> l in ladies))
    && (forall l, k :: l in ladies ==> (k in ladies[l] <==> k in knights))
  }

  /** Every knight has exactly one lady, and every lady is free or has one knight. */
  ghost predicate Matching(knights: map<string, seq<string>>, partner: map<string, string>) {
    && (forall l :: l in partner ==> partner[l] == FREE || partner[l] in knights)
    && (forall k :: k in knights ==> exists l :: l in partner && partner[l] == k)
    && (forall l1, l2 :: l1 in partner && l2 in partner && partner[l1] == partner[l2] && partner[l1] != FREE ==> l1 == l2)
  }

  /** Knight `k` lists lady `l` before lady `w`. */
  ghost predicate KnightPrefers(knights: map<string, seq<string>>, k: string, l: string, w: string) {
    k in knights && l in knights[k] && w in knights[k] && IndexOf(knights[k], l) < IndexOf(knights[k], w)
  }

  /** Lady `l` lists knight `k`, and before her partner unless she has none she lists. */
  ghost predicate LadyPrefers(ladies: map<string, seq<string>>, partner: map<string, string>, l: string, k: string) {
    && l in ladies && l in partner && k in ladies[l]
    && (partner[l] == FREE || partner[l] !in ladies[l] || IndexOf(ladies[l], k) < IndexOf(ladies[l], partner[l]))
  }

  /** No knight and lady both prefer each other to what they have: the matching is stable. */
  ghost predicate NoBlockingPair(knights: map<string, seq<string>>, ladies: map<string, seq<string>>, partner: map<string, string>) {
    forall k, w, l :: w in partner && partner[w] == k && KnightPrefers(knights, k, l, w) ==> !LadyPrefers(ladies, partner, l, k)
  }

  /** How far a lady is from her first choice; a free lady is furthest. */
  function Rank(ladies: map<string, seq<string>>, partner: map<string, string>, l: string): nat
    requires l in partner && l in ladies
  {
    var pref := ladies[l];
    if partner[l] == FREE then |pref| + 1
    else if partner[l] in pref then IndexOf(pref, partner[l])
    else |pref|
  }

  ghost function RankPairs(ladies: map<string, seq<string>>, partner: map<string, string>): set<(string, int)> {
    set l, j | l in partner && l in ladies && 0 <= j < Rank(ladies, partner, l) :: (l, j)
  }

  ghost function Proposals(prefs: map<string, seq<string>>): set<(string, int)> {
    set k, i | k in prefs && 0 <= i < |prefs[k]| :: (k, i)
  }

  /**
   * `stable` (lines 92-121). The free knights are kept in the order of the
   * source's `k_free` dictionary, whose values are all "free". The source
   * pops the heads of the caller's lists in place; here their final values
   * are returned in `prefs`. An empty list of a free knight is an
   * `IndexError`, a lady missing from the ladies a `KeyError`, and a name
   * missing from a lady's list a `ValueError` from `check_pref`.
   */
  method Stable(knightOrder: seq<string>, knights: map<string, seq<string>>, ladies: map<string, seq<string>>)
    returns (r: Result<map<string, string>>, prefs: map<string, seq<string>>)
    requires Distinct(knightOrder) && forall k :: k in knightOrder <==> k in knights
    ensures prefs.Keys == knights.Keys && forall k :: k in prefs ==> Suffix(prefs[k], knights[k])
    ensures r == Err(IndexError) ==> exists k :: k in prefs && prefs[k] == []
    ensures r == Err(KeyError) ==> exists k, l :: k in knights && l in knights[k] && l !in ladies
    ensures r == Err(ValueError) ==> exists l, k :: l in ladies && k in knights && k !in ladies[l]
    ensures r.Ok? ==> r.value.Keys == ladies.Keys
    ensures r.Ok? && FREE !in knights ==> Matching(knights, r.value) && NoBlockingPair(knights, ladies, r.value)
    ensures r.Ok? && FREE !in knights ==>
      forall l :: l in r.value && r.value[l] != FREE ==> prefs[r.value[l]] != [] && prefs[r.value[l]][0] == l
    ensures FREE !in knights && Complete(knights, ladies) ==> r.Ok? && forall l :: l in r.value ==> r.value[l] != FREE
  {
    var partner := map l | l in ladies :: FREE;
    var kFree := knightOrder;
    prefs := knights;
    ghost var wife: map<string, string> := map[];
    while kFree != []
      invariant Shape(knights, ladies, kFree, partner, prefs)
      invariant FREE !in knights ==> Engagements(knights, ladies, kFree, partner, prefs, wife)
      decreases if FREE in kFree then 1 else 0, Proposals(prefs), RankPairs(ladies, partner), |kFree|
    {
      var next;
      next, wife := Propose(knights, ladies, kFree, partner, prefs, wife);
      if next.Err? {
        RefusedWhy(knights, ladies, kFree, partner, prefs, next.error);
        return Err(next.error), prefs;
      }
      kFree, partner, prefs := next.value.kFree, next.value.partner, next.value.prefs;
    }
    Finish(knights, ladies, partner, prefs, wife);
    r := Ok(partner);
  }

  /**
   * Why a round fails: IndexError when a knight has run through his list,
   * KeyError when a knight lists someone who is no lady, and ValueError when
   * a lady's list leaves out a knight.
   */
  lemma RefusedWhy(knights: map<string, seq<string>>, ladies: map<string, seq<string>>, kFree: seq<string>,
                   partner: map<string, string>, prefs: map<string, seq<string>>, e: PyError)
    requires kFree != [] && Shape(knights, ladies, kFree, partner, prefs)
    requires Refused(ladies, kFree, partner, prefs, e)
    ensures e == IndexError ==> exists k :: k in prefs && prefs[k] == []
    ensures e == KeyError ==> exists k, l :: k in knights && l in knights[k] && l !in ladies
    ensures e == ValueError ==> exists l, k :: l in ladies && k in knights && k !in ladies[l]
  {
    var knight := kFree[0];
    if prefs[knight] != [] {
      var lady := prefs[knight][0];
      var orig := knights[knight];
      assert lady == orig[|orig| - |prefs[knight]|];
      if lady in partner {
        assert partner[lady] in knights;
      }
    }
  }

  /** The state of the loop of `stable`: the free knights in order, each lady's partner, and what is left of each list. */
  datatype Round = Round(kFree: seq<string>, partner: map<string, string>, prefs: map<string, seq<string>>)

  /**
   * One round of the loop (lines 99-120) as the source takes it: the first
   * free knight proposes to the head of his list. A free lady takes him. An
   * engaged lady takes him unless she lists her partner first, and then her
   * partner is free again, last in line unless he already was free;
   * otherwise the knight drops her from his list.
   */
  ghost predicate Proposed(ladies: map<string, seq<string>>, kFree: seq<string>, partner: map<string, string>,
                           prefs: map<string, seq<string>>, next: Round)
    requires kFree != [] && kFree[0] in prefs
  {
    var knight := kFree[0];
    && prefs[knight] != []
    && var lady := prefs[knight][0];
    && lady in partner && lady in ladies
    && if partner[lady] == FREE then next == Round(kFree[1..], partner[lady := knight], prefs)
       else
         var engaged := partner[lady];
         && engaged in ladies[lady] && knight in ladies[lady]
         && if Before(ladies[lady], engaged, knight) then next == Round(kFree, partner, prefs[knight := prefs[knight][1..]])
            else next == Round((if engaged in kFree then kFree else kFree + [engaged])[1..], partner[lady := knight], prefs)
  }

  /** The round fails: the knight's list is empty, its head is no lady, or a name is missing from her list. */
  ghost predicate Refused(ladies: map<string, seq<string>>, kFree: seq<string>, partner: map<string, string>,
                          prefs: map<string, seq<string>>, e: PyError)
    requires kFree != [] && kFree[0] in prefs && partner.Keys == ladies.Keys
  {
    var knight := kFree[0];
    if prefs[knight] == [] then e == IndexError
    else
      var lady := prefs[knight][0];
      if lady !in partner then e == KeyError
      else partner[lady] != FREE && (partner[lady] !in ladies[lady] || knight !in ladies[lady]) && e == ValueError
  }

  /** The loop's measure goes down, lexicographically. */
  ghost predicate Progress(ladies: map<string, seq<string>>, kFree: seq<string>, partner: map<string, string>,
                           prefs: map<string, seq<string>>, next: Round) {
    var free, free' := FREE in kFree, FREE in next.kFree;
    || (free && !free')
    || (free == free' && Proposals(next.prefs) < Proposals(prefs))
    || (free == free' && Proposals(next.prefs) == Proposals(prefs) && RankPairs(ladies, next.partner) < RankPairs(ladies, partner))
    || (free == free' && Proposals(next.prefs) == Proposals(prefs) && RankPairs(ladies, next.partner) == RankPairs(ladies, partner)
        && |next.kFree| < |kFree|)
  }

  /**
   * A round of the loop: it fails exactly as the source does, or it makes
   * the proposal, keeping the loop's invariants and lowering its measure.
   * When every knight lists every lady and no knight is called "free", it
   * does not fail.
   */
  method Propose(knights: map<string, seq<string>>, ladies: map<string, seq<string>>, kFree: seq<string>,
                 partner: map<string, string>, prefs: map<string, seq<string>>, ghost wife: map<string, string>)
    returns (r: Result<Round>, ghost wife': map<string, string>)
    requires kFree != [] && Shape(knights, ladies, kFree, partner, prefs)
    requires FREE !in knights ==> Engagements(knights, ladies, kFree, partner, prefs, wife)
    ensures r.Err? ==> Refused(ladies, kFree, partner, prefs, r.error)
    ensures r.Ok? ==> Proposed(ladies, kFree, partner, prefs, r.value)
    ensures r.Ok? ==> Shape(knights, ladies, r.value.kFree, r.value.partner, r.value.prefs)
    ensures r.Ok? && FREE !in knights ==>
      Engagements(knights, ladies, r.value.kFree, r.value.partner, r.value.prefs, wife')
    ensures r.Ok? ==> Progress(ladies, kFree, partner, prefs, r.value)
    ensures FREE !in knights && Complete(knights, ladies) ==> r.Ok?
  {
    wife' := wife;
    var knight := kFree[0];
    ProposalFacts(knights, ladies, kFree, partner, prefs, wife);
    if prefs[knight] == [] {
      return Err(IndexError), wife';
    }
    var lady := prefs[knight][0];
    if lady !in partner {
      return Err(KeyError), wife';
    }
    if partner[lady] == FREE {
      EngageFree(knights, ladies, kFree, partner, prefs, wife, knight, lady);
      wife' := wife[knight := lady];
      return Ok(Round(kFree[1..], partner[lady := knight], prefs)), wife';
    }
    var engaged := partner[lady];
    var accepted := CheckPref(knight, engaged, ladies[lady]);
    if accepted.Err? {
      return Err(accepted.error), wife';
    }
    BeforeIndex(ladies[lady], engaged, knight);
    if accepted.value {
      // `k_free[engaged] = "free"` adds a missing key last; `del k_free[knight]` drops the first
      var grown := if engaged !in kFree then kFree + [engaged] else kFree;
      TradeUp(knights, ladies, kFree, partner, prefs, wife, knight, lady, grown[1..]);
      wife' := (wife - {engaged})[knight := lady];
      return Ok(Round(grown[1..], partner[lady := knight], prefs)), wife';
    }
    Reject(knights, ladies, kFree, partner, prefs, wife, knight, lady);
    return Ok(Round(kFree, partner, prefs[knight := prefs[knight][1..]])), wife';
  }

  /** Giving a lady a partner she ranks higher removes pairs from the rank measure. */
  lemma RankDrop(ladies: map<string, seq<string>>, partner: map<string, string>, lady: string, knight: string)
    requires lady in partner && lady in ladies
    requires Rank(ladies, partner[lady := knight], lady) < Rank(ladies, partner, lady)
    ensures RankPairs(ladies, partner[lady := knight]) < RankPairs(ladies, partner)
  {
    var after := partner[lady := knight];
    forall x | x in RankPairs(ladies, after) ensures x in RankPairs(ladies, partner) {
      var l, j :| x == (l, j) && l in after && l in ladies && 0 <= j < Rank(ladies, after, l);
      if l != lady {
        assert Rank(ladies, after, l) == Rank(ladies, partner, l);
      }
    }
    var gone := (lady, Rank(ladies, after, lady));
    assert gone in RankPairs(ladies, partner);
  }

  /** Popping the head of a list removes a pair from the proposal measure. */
  lemma PopDrop(prefs: map<string, seq<string>>, knight: string)
    requires knight in prefs && prefs[knight] != []
    ensures Proposals(prefs[knight := prefs[knight][1..]]) < Proposals(prefs)
  {
    var after := prefs[knight := prefs[knight][1..]];
    forall x | x in Proposals(after) ensures x in Proposals(prefs) {
      var k, i :| x == (k, i) && k in after && 0 <= i < |after[k]|;
    }
    var gone := (knight, |prefs[knight]| - 1);
    assert gone in Proposals(prefs);
  }

  lemma DropFirst(kFree: seq<string>)
    requires Distinct(kFree) && kFree != []
    ensures Distinct(kFree[1..])
    ensures FREE in kFree[1..] <==> FREE in kFree && kFree[0] != FREE
  {
    if FREE in kFree[1..] {
      var i :| 0 <= i < |kFree[1..]| && kFree[1..][i] == FREE;
      assert kFree[i + 1] == FREE;
    }
  }

  /** Lines 105-108: a free lady accepts the knight. */
  lemma EngageFree(knights: map<string, seq<string>>, ladies: map<string, seq<string>>, kFree: seq<string>,
                   partner: map<string, string>, prefs: map<string, seq<string>>, wife: map<string, string>,
                   knight: string, lady: string)
    requires Shape(knights, ladies, kFree, partner, prefs)
    requires FREE !in knights ==> Engagements(knights, ladies, kFree, partner, prefs, wife)
    requires kFree != [] && knight == kFree[0] && prefs[knight] != [] && lady == prefs[knight][0]
    requires lady in partner && partner[lady] == FREE
    ensures Shape(knights, ladies, kFree[1..], partner[lady := knight], prefs)
    ensures FREE !in knights ==>
      Engagements(knights, ladies, kFree[1..], partner[lady := knight], prefs, wife[knight := lady])
    ensures FREE in kFree[1..] <==> FREE in kFree && knight != FREE
    ensures knight != FREE ==> RankPairs(ladies, partner[lady := knight]) < RankPairs(ladies, partner)
  {
    DropFirst(kFree);
    if knight != FREE {
      RankDrop(ladies, partner, lady, knight);
    }
    if FREE !in knights {
      EngageFreeEngagements(knights, ladies, kFree, partner, prefs, wife, knight, lady);
    }
  }

  lemma EngageFreeEngagements(knights: map<string, seq<string>>, ladies: map<string, seq<string>>, kFree: seq<string>,
                              partner: map<string, string>, prefs: map<string, seq<string>>, wife: map<string, string>,
                              knight: string, lady: string)
    requires Shape(knights, ladies, kFree, partner, prefs)
    requires FREE !in knights && Engagements(knights, ladies, kFree, partner, prefs, wife)
    requires kFree != [] && knight == kFree[0] && prefs[knight] != [] && lady == prefs[knight][0]
    requires lady in partner && partner[lady] == FREE
    ensures Engagements(knights, ladies, kFree[1..], partner[lady := knight], prefs, wife[knight := lady])
  {
    var partner', wife' := partner[lady := knight], wife[knight := lady];
    assert knight in knights && knight !in wife;
    EngagePartners(partner, wife, knight, lady, partner', wife');
    EngageWives(knights, kFree, partner, prefs, wife, knight, lady, partner', wife');
    EngageCovers(knights, kFree, wife, knight, lady, wife');
    DroppedKept(knights, ladies, partner, prefs, lady, knight);
  }

  /** Engaging a lady to a knight who had no lady keeps every engaged lady's knight pointing back to her. */
  lemma EngagePartners(partner: map<string, string>, wife: map<string, string>, knight: string, lady: string,
                       partner': map<string, string>, wife': map<string, string>)
    requires forall l :: l in partner && partner[l] != FREE ==> partner[l] in wife && wife[partner[l]] == l
    requires knight !in wife
    requires partner' == partner[lady := knight] && wife' == wife[knight := lady]
    ensures forall l :: l in partner' && partner'[l] != FREE ==> partner'[l] in wife' && wife'[partner'[l]] == l
  {
    forall l | l in partner' && partner'[l] != FREE ensures partner'[l] in wife' && wife'[partner'[l]] == l {
      if l != lady {
        assert partner[l] in wife && partner[l] != knight;
      }
    }
  }

  /** The first free knight, engaged to the first lady left on his list, leaves the free list with her. */
  lemma EngageWives(knights: map<string, seq<string>>, kFree: seq<string>, partner: map<string, string>,
                    prefs: map<string, seq<string>>, wife: map<string, string>, knight: string, lady: string,
                    partner': map<string, string>, wife': map<string, string>)
    requires forall k :: k in wife ==>
      && k in knights && k in prefs && k !in kFree
      && wife[k] in partner && partner[wife[k]] == k
      && prefs[k] != [] && prefs[k][0] == wife[k]
    requires Distinct(kFree) && kFree != [] && knight == kFree[0]
    requires knight in knights && knight in prefs && prefs[knight] != [] && prefs[knight][0] == lady
    requires lady in partner && partner[lady] == FREE && FREE !in knights
    requires partner' == partner[lady := knight] && wife' == wife[knight := lady]
    ensures forall k :: k in wife' ==>
      && k in knights && k in prefs && k !in kFree[1..]
      && wife'[k] in partner' && partner'[wife'[k]] == k
      && prefs[k] != [] && prefs[k][0] == wife'[k]
  {
    DistinctHead(kFree);
    forall k | k in wife'
      ensures k in knights && k in prefs && k !in kFree[1..]
      ensures wife'[k] in partner' && partner'[wife'[k]] == k
      ensures prefs[k] != [] && prefs[k][0] == wife'[k]
    {
      if k != knight {
        assert wife[k] != lady;
      }
    }
  }

  /** The head of a list without repeats is not in its rest. */
  lemma DistinctHead(s: seq<string>)
    requires Distinct(s) && s != []
    ensures s[0] !in s[1..]
  {
  }

  /** Every knight is still free or engaged once the first free knight is engaged. */
  lemma EngageCovers(knights: map<string, seq<string>>, kFree: seq<string>, wife: map<string, string>,
                     knight: string, lady: string, wife': map<string, string>)
    requires forall k :: k in knights ==> k in kFree || k in wife
    requires kFree != [] && knight == kFree[0] && wife' == wife[knight := lady]
    ensures forall k :: k in knights ==> k in kFree[1..] || k in wife'
  {
    forall k | k in knights ensures k in kFree[1..] || k in wife' {
      if k != knight && k in kFree {
        var i :| 0 <= i < |kFree| && kFree[i] == k;
        assert i > 0 && kFree[1..][i - 1] == k;
      }
    }
  }


  /** Lines 110-118: an engaged lady who ranks the knight at least as high takes him. */
  lemma TradeUp(knights: map<string, seq<string>>, ladies: map<string, seq<string>>, kFree0: seq<string>,
                partner: map<string, string>, prefs: map<string, seq<string>>, wife: map<string, string>,
                knight: string, lady: string, kFree: seq<string>)
    requires Shape(knights, ladies, kFree0, partner, prefs)
    requires FREE !in knights ==> Engagements(knights, ladies, kFree0, partner, prefs, wife)
    requires kFree0 != [] && knight == kFree0[0] && prefs[knight] != [] && lady == prefs[knight][0]
    requires lady in partner && partner[lady] != FREE
    requires knight in ladies[lady] && partner[lady] in ladies[lady]
    requires IndexOf(ladies[lady], knight) <= IndexOf(ladies[lady], partner[lady])
    requires kFree == (if partner[lady] in kFree0 then kFree0 else kFree0 + [partner[lady]])[1..]
    ensures Shape(knights, ladies, kFree, partner[lady := knight], prefs)
    ensures FREE !in knights ==>
      Engagements(knights, ladies, kFree, partner[lady := knight], prefs, (wife - {partner[lady]})[knight := lady])
    ensures FREE in kFree <==> FREE in kFree0 && knight != FREE
    ensures knight != FREE && knight != partner[lady] ==>
      RankPairs(ladies, partner[lady := knight]) < RankPairs(ladies, partner)
    ensures knight == partner[lady] ==> partner[lady := knight] == partner && |kFree| < |kFree0|
  {
    var engaged := partner[lady];
    DropFirst(kFree0);
    if engaged !in kFree0 {
      var grown := kFree0 + [engaged];
      assert grown[1..] == kFree0[1..] + [engaged];
      assert Distinct(grown);
    }
    if knight != FREE && knight != engaged {
      assert IndexOf(ladies[lady], knight) != IndexOf(ladies[lady], engaged);
      RankDrop(ladies, partner, lady, knight);
    }
    if FREE !in knights {
      TradeUpEngagements(knights, ladies, kFree0, partner, prefs, wife, knight, lady, kFree);
    }
  }

  lemma TradeUpEngagements(knights: map<string, seq<string>>, ladies: map<string, seq<string>>, kFree0: seq<string>,
                           partner: map<string, string>, prefs: map<string, seq<string>>, wife: map<string, string>,
                           knight: string, lady: string, kFree: seq<string>)
    requires Shape(knights, ladies, kFree0, partner, prefs)
    requires FREE !in knights && Engagements(knights, ladies, kFree0, partner, prefs, wife)
    requires kFree0 != [] && knight == kFree0[0] && prefs[knight] != [] && lady == prefs[knight][0]
    requires lady in partner && partner[lady] != FREE
    requires knight in ladies[lady] && partner[lady] in ladies[lady]
    requires IndexOf(ladies[lady], knight) <= IndexOf(ladies[lady], partner[lady])
    requires kFree == (if partner[lady] in kFree0 then kFree0 else kFree0 + [partner[lady]])[1..]
    ensures Engagements(knights, ladies, kFree, partner[lady := knight], prefs, (wife - {partner[lady]})[knight := lady])
  {
    var engaged := partner[lady];
    assert engaged in wife && wife[engaged] == lady;
    assert engaged !in kFree0 && knight !in wife && knight != engaged;
    assert kFree == kFree0[1..] + [engaged];
    DropFirst(kFree0);
    DroppedKept(knights, ladies, partner, prefs, lady, knight);
  }

  /** Lines 119-120: the lady keeps her partner and the knight drops her from his list. */
  lemma Reject(knights: map<string, seq<string>>, ladies: map<string, seq<string>>, kFree: seq<string>,
               partner: map<string, string>, prefs: map<string, seq<string>>, wife: map<string, string>,
               knight: string, lady: string)
    requires Shape(knights, ladies, kFree, partner, prefs)
    requires FREE !in knights ==> Engagements(knights, ladies, kFree, partner, prefs, wife)
    requires kFree != [] && knight == kFree[0] && prefs[knight] != [] && lady == prefs[knight][0]
    requires lady in partner && partner[lady] != FREE
    requires knight in ladies[lady] && partner[lady] in ladies[lady]
    requires IndexOf(ladies[lady], partner[lady]) < IndexOf(ladies[lady], knight)
    ensures Shape(knights, ladies, kFree, partner, prefs[knight := prefs[knight][1..]])
    ensures FREE !in knights ==> Engagements(knights, ladies, kFree, partner, prefs[knight := prefs[knight][1..]], wife)
    ensures Proposals(prefs[knight := prefs[knight][1..]]) < Proposals(prefs)
  {
    PopDrop(prefs, knight);
    PopShape(knights, ladies, kFree, partner, prefs, knight);
    if FREE !in knights {
      assert Rejected(ladies, partner, lady, knight);
      RejectEngagements(knights, ladies, kFree, partner, prefs, wife, knight, lady);
    }
  }

  lemma PopShape(knights: map<string, seq<string>>, ladies: map<string, seq<string>>, kFree: seq<string>,
                 partner: map<string, string>, prefs: map<string, seq<string>>, knight: string)
    requires Shape(knights, ladies, kFree, partner, prefs)
    requires knight in prefs && prefs[knight] != []
    ensures Shape(knights, ladies, kFree, partner, prefs[knight := prefs[knight][1..]])
  {
    var after := prefs[knight := prefs[knight][1..]];
    forall k | k in after ensures Suffix(after[k], knights[k]) {
      if k == knight {
        var orig := knights[k];
        assert after[k] == orig[|orig| - |prefs[k]| + 1..];
      }
    }
  }

  lemma RejectEngagements(knights: map<string, seq<string>>, ladies: map<string, seq<string>>, kFree: seq<string>,
                          partner: map<string, string>, prefs: map<string, seq<string>>, wife: map<string, string>,
                          knight: string, lady: string)
    requires Shape(knights, ladies, kFree, partner, prefs)
    requires FREE !in knights && Engagements(knights, ladies, kFree, partner, prefs, wife)
    requires kFree != [] && knight == kFree[0] && prefs[knight] != [] && lady == prefs[knight][0]
    requires Rejected(ladies, partner, lady, knight)
    ensures Engagements(knights, ladies, kFree, partner, prefs[knight := prefs[knight][1..]], wife)
  {
    var after := prefs[knight := prefs[knight][1..]];
    var orig := knights[knight];
    assert knight !in wife;
    var popped := |orig| - |prefs[knight]|;
    assert orig[popped] == lady;
    forall k, i | k in knights && k in after && 0 <= i < |knights[k]| - |after[k]|
      ensures Rejected(ladies, partner, knights[k][i], k)
    {
      if k != knight || i < popped {
        assert Rejected(ladies, partner, knights[k][i], k);
      }
    }
  }

  /** An injection from `dom` into `cod` needs `cod` to be at least as large. */
  lemma {:induction false} InjectionCard(dom: set<string>, cod: set<string>, f: map<string, string>)
    requires forall a :: a in dom ==> a in f && f[a] in cod
    requires forall a, b :: a in dom && b in dom && f[a] == f[b] ==> a == b
    ensures |dom| <= |cod|
    decreases dom
  {
    if dom != {} {
      var a :| a in dom;
      InjectionCard(dom - {a}, cod - {f[a]}, f);
    }
  }

  lemma IndexOfAtMost(s: seq<string>, x: string, p: nat)
    requires p < |s| && s[p] == x
    ensures x in s && IndexOf(s, x) <= p
  {
  }

  /**
   * A free knight whose list ran out was turned down by every lady on it,
   * each for a different knight; if he listed all the ladies, there are
   * fewer ladies than knights.
   */
  lemma EmptyListShort(knights: map<string, seq<string>>, ladies: map<string, seq<string>>, kFree: seq<string>,
                       partner: map<string, string>, prefs: map<string, seq<string>>, wife: map<string, string>)
    requires Shape(knights, ladies, kFree, partner, prefs)
    requires FREE !in knights && Engagements(knights, ladies, kFree, partner, prefs, wife)
    requires kFree != [] && prefs[kFree[0]] == []
    requires forall l :: l in ladies ==> l in knights[kFree[0]]
    ensures |ladies.Keys| < |knights.Keys|
  {
    var k := kFree[0];
    forall l | l in ladies.Keys ensures l in partner && partner[l] in knights.Keys - {k} {
      var i := IndexOf(knights[k], l);
      assert Rejected(ladies, partner, knights[k][i], k);
    }
    forall a, b | a in ladies.Keys && b in ladies.Keys && partner[a] == partner[b] ensures a == b {
      assert wife[partner[a]] == a;
    }
    InjectionCard(ladies.Keys, knights.Keys - {k}, partner);
  }

  /**
   * What the next proposal needs: when every knight lists every lady and no
   * knight is called "free", the free knight's list is not empty, its head is
   * a lady, and both he and her partner are on her list.
   */
  lemma ProposalFacts(knights: map<string, seq<string>>, ladies: map<string, seq<string>>, kFree: seq<string>,
                      partner: map<string, string>, prefs: map<string, seq<string>>, wife: map<string, string>)
    requires Shape(knights, ladies, kFree, partner, prefs) && kFree != []
    requires FREE !in knights ==> Engagements(knights, ladies, kFree, partner, prefs, wife)
    ensures FREE !in knights && prefs[kFree[0]] == [] && (forall l :: l in ladies ==> l in knights[kFree[0]]) ==>
      |ladies.Keys| < |knights.Keys|
    ensures Complete(knights, ladies) && prefs[kFree[0]] != [] ==>
      var lady := prefs[kFree[0]][0];
      && lady in ladies && kFree[0] in ladies[lady]
      && (partner[lady] != FREE ==> partner[lady] in ladies[lady])
  {
    var k := kFree[0];
    if FREE !in knights && prefs[k] == [] && forall l :: l in ladies ==> l in knights[k] {
      EmptyListShort(knights, ladies, kFree, partner, prefs, wife);
    }
    if prefs[k] != [] {
      var orig := knights[k];
      assert prefs[k][0] == orig[|orig| - |prefs[k]|];
    }
  }

  /** After the loop: every knight is engaged, to one lady each. */
  lemma FinishMatching(knights: map<string, seq<string>>, ladies: map<string, seq<string>>,
                       partner: map<string, string>, prefs: map<string, seq<string>>, wife: map<string, string>)
    requires Shape(knights, ladies, [], partner, prefs)
    requires FREE !in knights && Engagements(knights, ladies, [], partner, prefs, wife)
    ensures Matching(knights, partner)
    ensures forall l :: l in partner && partner[l] != FREE ==> prefs[partner[l]] != [] && prefs[partner[l]][0] == l
  {
    forall k | k in knights ensures exists l :: l in partner && partner[l] == k {
      assert k in wife && partner[wife[k]] == k;
    }
    forall l1, l2 | l1 in partner && l2 in partner && partner[l1] == partner[l2] && partner[l1] != FREE
      ensures l1 == l2
    {
      assert wife[partner[l1]] == l1;
    }
  }

  /**
   * After the loop no pair blocks: a lady a knight lists before his own was
   * dropped from his list, so she turned him down for a knight she prefers.
   */
  lemma FinishStable(knights: map<string, seq<string>>, ladies: map<string, seq<string>>,
                     partner: map<string, string>, prefs: map<string, seq<string>>, wife: map<string, string>)
    requires Shape(knights, ladies, [], partner, prefs)
    requires FREE !in knights && Engagements(knights, ladies, [], partner, prefs, wife)
    ensures NoBlockingPair(knights, ladies, partner)
  {
    forall k, w, l | w in partner && partner[w] == k && KnightPrefers(knights, k, l, w)
      ensures !LadyPrefers(ladies, partner, l, k)
    {
      assert k in wife && wife[k] == w;
      var orig := knights[k];
      var p := |orig| - |prefs[k]|;
      assert orig[p] == w;
      IndexOfAtMost(orig, w, p);
      var i := IndexOf(orig, l);
      assert Rejected(ladies, partner, orig[i], k);
    }
  }

  /** After the loop, with as many ladies as knights, no lady is left free. */
  lemma FinishMarried(knights: map<string, seq<string>>, ladies: map<string, seq<string>>,
                      partner: map<string, string>, prefs: map<string, seq<string>>, wife: map<string, string>)
    requires Shape(knights, ladies, [], partner, prefs)
    requires FREE !in knights && Engagements(knights, ladies, [], partner, prefs, wife)
    requires |knights.Keys| == |ladies.Keys|
    ensures forall l :: l in partner ==> partner[l] != FREE
  {
    var married := set l | l in partner && partner[l] != FREE;
    forall k | k in knights.Keys ensures k in wife && wife[k] in married {
    }
    InjectionCard(knights.Keys, married, wife);
    var single := ladies.Keys - married;
    assert ladies.Keys == married + single;
    assert single == {};
    forall l | l in partner ensures partner[l] != FREE {
      assert l !in single;
    }
  }

  lemma Finish(knights: map<string, seq<string>>, ladies: map<string, seq<string>>,
               partner: map<string, string>, prefs: map<string, seq<string>>, wife: map<string, string>)
    requires Shape(knights, ladies, [], partner, prefs)
    requires FREE !in knights ==> Engagements(knights, ladies, [], partner, prefs, wife)
    ensures FREE !in knights ==> Matching(knights, partner) && NoBlockingPair(knights, ladies, partner)
    ensures FREE !in knights ==>
      forall l :: l in partner && partner[l] != FREE ==> prefs[partner[l]] != [] && prefs[partner[l]][0] == l
    ensures FREE !in knights && |knights.Keys| == |ladies.Keys| ==> forall l :: l in partner ==> partner[l] != FREE
  {
    if FREE !in knights {
      FinishMatching(knights, ladies, partner, prefs, wife);
      FinishStable(knights, ladies, partner, prefs, wife);
      if |knights.Keys| == |ladies.Keys| {
        FinishMarried(knights, ladies, partner, prefs, wife);
      }
    }
  }
}
