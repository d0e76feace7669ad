/** Finding one login across every vault: crates/heyl-app/src/get.rs and crates/heyl-vault/src/login.rs. */
module Get {
  import opened Wrappers
  import Text

  // ---- logins and vaults

  datatype Login = Login(
    id: string, displayHeadline: Option<string>, title: string, websites: seq<string>,
    edited: Option<string>, changeTime: Option<string>, isDeleted: bool, isArchived: bool)
  {
    /** Live, archived, deleted. */
    function Liveness(): nat { if !isDeleted then 0 else if isArchived then 1 else 2 }

    /** `changeTime ?? editTime`, or the empty string, which sorts oldest. */
    function Recency(): string {
      if changeTime.Some? then changeTime.value else if edited.Some? then edited.value else ""
    }

    predicate MatchesName(lower: string -> string, needle: string) {
      var wanted := lower(needle);
      || (displayHeadline.Some? && lower(displayHeadline.value) == wanted)
      || lower(title) == wanted
      || exists i :: 0 <= i < |websites| && lower(websites[i]) == wanted
    }
  }

  datatype LoginSelector = ById(id: string) | ByName(name: string)

  predicate LoginMatches(lower: string -> string, login: Login, selector: LoginSelector) {
    match selector
    case ById(id) => login.id == id
    case ByName(name) => login.MatchesName(lower, name)
  }

  datatype VaultType = Private | OrganizationPersonal | Team | Inbox | Other

  function Tier(t: VaultType): nat {
    match t
    case Private => 0
    case OrganizationPersonal => 1
    case Team => 2
    case Inbox => 3
    case Other => 255
  }

  /** A vault, its organisation's or team's name as far as that can be read, and the logins it holds if it opens. */
  datatype Vault = Vault(
    id: string, vaultType: VaultType, organization: Option<string>, team: Option<string>, logins: Option<seq<Login>>)

  datatype VaultSelector = Any | VaultId(id: string) | VaultName(name: string)

  datatype Candidate = Candidate(tier: nat, login: Login)

  datatype Failure = NoSuchVault | VaultWillNotOpen | NoSuchLogin

  datatype Located = Found(matchCount: nat, chosen: Candidate) | Failed(failure: Failure)

  // ---- the order of answers

  /** Liveness, then tier, then most recently changed, then id. */
  predicate Before(a: Candidate, b: Candidate) {
    || a.login.Liveness() < b.login.Liveness()
    || (a.login.Liveness() == b.login.Liveness() &&
        (|| a.tier < b.tier
         || (a.tier == b.tier &&
             (|| Text.Less(b.login.Recency(), a.login.Recency())
              || (a.login.Recency() == b.login.Recency() && Text.Less(a.login.id, b.login.id))))))
  }

  predicate Tied(a: Candidate, b: Candidate) {
    && a.login.Liveness() == b.login.Liveness() && a.tier == b.tier
    && a.login.Recency() == b.login.Recency() && a.login.id == b.login.id
  }

  lemma BeforeIsOrder(a: Candidate, b: Candidate)
    ensures !(Before(a, b) && Before(b, a))
    ensures !Before(a, b) && !Before(b, a) <==> Tied(a, b)
  {
    Text.LessTotal(a.login.Recency(), b.login.Recency());
    Text.LessTotal(a.login.id, b.login.id);
    Text.LessIrreflexive(a.login.id);
    Text.LessIrreflexive(a.login.Recency());
  }

  lemma BeforeTransitive(a: Candidate, b: Candidate, c: Candidate)
    requires !Before(b, a) && !Before(c, b)
    ensures !Before(c, a)
  {
    var (ra, rb, rc) := (a.login.Recency(), b.login.Recency(), c.login.Recency());
    BeforeIsOrder(a, b);
    BeforeIsOrder(b, c);
    Text.LessTotal(ra, rc);
    Text.LessTotal(a.login.id, c.login.id);
    if Text.Less(rb, ra) && Text.Less(rc, rb) { Text.LessTransitive(rc, rb, ra); }
    if Text.Less(a.login.id, b.login.id) && Text.Less(b.login.id, c.login.id) {
      Text.LessTransitive(a.login.id, b.login.id, c.login.id);
    }
  }

  // ---- ranking

  /** Where a stable sort puts one more element: after everything it does not precede. */
  function Inserted(sorted: seq<Candidate>, c: Candidate): seq<Candidate> {
    if sorted == [] || !Before(c, sorted[|sorted| - 1]) then sorted + [c]
    else Inserted(sorted[..|sorted| - 1], c) + [sorted[|sorted| - 1]]
  }

  function StableSorted(cs: seq<Candidate>): seq<Candidate> {
    if cs == [] then [] else Inserted(StableSorted(cs[..|cs| - 1]), cs[|cs| - 1])
  }

  /** Sort, and take the first. */
  function Rank(cs: seq<Candidate>): Option<Candidate> {
    var sorted := StableSorted(cs);
    if sorted == [] then None else Some(sorted[0])
  }

  predicate InOrder(sorted: seq<Candidate>) { forall i, j :: 0 <= i < j < |sorted| ==> !Before(sorted[j], sorted[i]) }

  lemma {:induction false} InsertedInOrder(sorted: seq<Candidate>, c: Candidate)
    requires InOrder(sorted)
    ensures InOrder(Inserted(sorted, c))
    ensures multiset(Inserted(sorted, c)) == multiset(sorted) + multiset{c}
  {
    if sorted != [] {
      var init, last := sorted[..|sorted| - 1], sorted[|sorted| - 1];
      assert sorted == init + [last];
      if Before(c, last) {
        InsertedInOrder(init, c);
        BeforeIsOrder(c, last);
        var inserted := Inserted(init, c);
        forall i | 0 <= i < |inserted| ensures !Before(last, inserted[i]) {
          assert inserted[i] in multiset(inserted);
          assert inserted[i] in multiset(init) || inserted[i] == c;
        }
        OneMoreInOrder(inserted, last);
      } else {
        forall i | 0 <= i < |sorted| ensures !Before(c, sorted[i]) {
          if i < |init| { BeforeTransitive(sorted[i], last, c); }
        }
        OneMoreInOrder(sorted, c);
      }
      hide Before, Inserted;
    }
  }

  lemma OneMoreInOrder(sorted: seq<Candidate>, c: Candidate)
    requires InOrder(sorted) && forall i :: 0 <= i < |sorted| ==> !Before(c, sorted[i])
    ensures InOrder(sorted + [c])
  {
    hide Before;
  }

  lemma {:induction false} SortedInOrder(cs: seq<Candidate>)
    ensures InOrder(StableSorted(cs)) && multiset(StableSorted(cs)) == multiset(cs)
  {
    assert InOrder([]);
    hide InOrder, Inserted;
    if cs != [] {
      SortedInOrder(cs[..|cs| - 1]);
      InsertedInOrder(StableSorted(cs[..|cs| - 1]), cs[|cs| - 1]);
      assert cs == cs[..|cs| - 1] + [cs[|cs| - 1]];
    }
  }

  /** The answer is a candidate none precedes, and there is one whenever there is a candidate. */
  lemma RankIsLeast(cs: seq<Candidate>)
    ensures Rank(cs) == None <==> cs == []
    ensures Rank(cs).Some? ==> Rank(cs).value in cs && forall c :: c in cs ==> !Before(c, Rank(cs).value)
  {
    var sorted := StableSorted(cs);
    SortedInOrder(cs);
    if cs == [] {
    } else {
      assert cs[0] in multiset(cs);
      assert sorted != [];
      assert sorted[0] in multiset(sorted);
      forall c | c in cs ensures !Before(c, sorted[0]) {
        assert c in multiset(cs);
        assert c in sorted;
        var i :| 0 <= i < |sorted| && sorted[i] == c;
        BeforeIsOrder(c, c);
      }
    }
  }

  /** Among candidates tied on all four keys the first gathered wins. */
  lemma {:induction false} RankIsFirst(cs: seq<Candidate>, c: Candidate)
    requires cs != []
    ensures Rank(cs + [c]) == if Before(c, Rank(cs).value) then Some(c) else Rank(cs)
  {
    var sorted := StableSorted(cs);
    assert (cs + [c])[..|cs|] == cs;
    RankIsLeast(cs);
    SortedInOrder(cs);
    FirstOfInserted(sorted, c);
  }

  lemma {:induction false} FirstOfInserted(sorted: seq<Candidate>, c: Candidate)
    requires sorted != [] && InOrder(sorted)
    ensures Inserted(sorted, c)[0] == if Before(c, sorted[0]) then c else sorted[0]
  {
    var init, last := sorted[..|sorted| - 1], sorted[|sorted| - 1];
    if init == [] {
    } else if Before(c, last) {
      FirstOfInserted(init, c);
    } else if Before(c, sorted[0]) {
      BeforeTransitive(sorted[0], last, c);
      assert false;
    }
  }

  /**
   * The answer is live if any candidate is, and archived rather than deleted if any is; among those it is of the
   * earliest tier; among those it was last changed, by `changeTime` or else `editTime`, or else at no time; and
   * among those it has the smallest id.
   */
  lemma RankMeaning(cs: seq<Candidate>, c: Candidate)
    requires c in cs
    ensures Rank(cs).Some? && Rank(cs).value in cs
    ensures var r, l := Rank(cs).value, c.login;
      && (!l.isDeleted ==> !r.login.isDeleted)
      && (l.isArchived && r.login.isDeleted ==> r.login.isArchived)
      && (l.isDeleted == r.login.isDeleted && (l.isDeleted ==> l.isArchived == r.login.isArchived) ==>
            && r.tier <= c.tier
            && (r.tier == c.tier ==>
                  var rt := if r.login.changeTime.Some? then r.login.changeTime.value
                            else if r.login.edited.Some? then r.login.edited.value else "";
                  var lt := if l.changeTime.Some? then l.changeTime.value
                            else if l.edited.Some? then l.edited.value else "";
                  !Text.Less(rt, lt) && (rt == lt ==> !Text.Less(l.id, r.login.id))))
  {
    RankIsLeast(cs);
  }

  /** Private vaults come before an organisation's personal ones, those before teams, and teams before inboxes. */
  lemma TierOrder(a: VaultType, b: VaultType)
    requires a != Other && b != Other
    ensures Tier(a) < Tier(b) <==>
      || (a == Private && b != Private)
      || (a == OrganizationPersonal && (b == Team || b == Inbox))
      || (a == Team && b == Inbox)
    ensures Tier(a) == Tier(b) <==> a == b
  {
  }

  // ---- gathering

  function Matching(lower: string -> string, v: Vault, logins: seq<Login>, selector: LoginSelector): seq<Candidate> {
    if logins == [] then []
    else Matching(lower, v, logins[..|logins| - 1], selector)
         + if LoginMatches(lower, logins[|logins| - 1], selector)
           then [Candidate(Tier(v.vaultType), logins[|logins| - 1])] else []
  }

  /** Every matching login of every vault that opens, in order. */
  function Gathered(lower: string -> string, scope: seq<Vault>, selector: LoginSelector): seq<Candidate> {
    if scope == [] then []
    else
      var v := scope[|scope| - 1];
      Gathered(lower, scope[..|scope| - 1], selector)
      + match v.logins case Some(logins) => Matching(lower, v, logins, selector) case None => []
  }

  function InsertedByTier(sorted: seq<Vault>, v: Vault): seq<Vault> {
    if sorted == [] || Tier(v.vaultType) >= Tier(sorted[|sorted| - 1].vaultType) then sorted + [v]
    else InsertedByTier(sorted[..|sorted| - 1], v) + [sorted[|sorted| - 1]]
  }

  /** The login vaults, in tier order. */
  function LoginVaults(vaults: seq<Vault>): seq<Vault> {
    if vaults == [] then []
    else
      var rest, v := LoginVaults(vaults[..|vaults| - 1]), vaults[|vaults| - 1];
      if v.vaultType == Other then rest else InsertedByTier(rest, v)
  }

  function FirstWith(vaults: seq<Vault>, wanted: Vault -> bool): (v: Option<Vault>)
    ensures v.Some? ==> v.value in vaults && wanted(v.value)
    ensures v == None ==> forall other :: other in vaults ==> !wanted(other)
  {
    if vaults == [] then None else if wanted(vaults[0]) then Some(vaults[0]) else FirstWith(vaults[1..], wanted)
  }

  /** A name that costs nothing to know. */
  function FreeName(lower: string -> string, v: Vault): Option<string> {
    match v.vaultType
    case Private => Some("private")
    case Inbox => Some("inbox")
    case OrganizationPersonal => if v.organization.Some? then Some(lower(v.organization.value)) else None
    case _ => None
  }

  /** A team's name, which costs opening its `groupMeta` vault. */
  function TeamName(lower: string -> string, v: Vault): Option<string> {
    if v.vaultType == Team && v.team.Some? then Some(lower(v.team.value)) else None
  }

  function HasId(id: string): Vault -> bool { (v: Vault) => v.id == id }

  function HasFreeName(lower: string -> string, wanted: string): Vault -> bool {
    (v: Vault) => FreeName(lower, v) == Some(wanted)
  }

  function HasTeamName(lower: string -> string, wanted: string): Vault -> bool {
    (v: Vault) => TeamName(lower, v) == Some(wanted)
  }

  /** The vault a name means: free names first, in tier order, then teams. */
  function Named(lower: string -> string, vaults: seq<Vault>, name: string): Option<Vault> {
    match FirstWith(vaults, HasFreeName(lower, lower(name)))
    case Some(v) => Some(v)
    case None => FirstWith(vaults, HasTeamName(lower, lower(name)))
  }

  /** The loops that resolve a name, reading team names only when no free name matched. */
  method MatchVaultName(lower: string -> string, vaults: seq<Vault>, name: string) returns (r: Option<Vault>)
    ensures r == Named(lower, vaults, name)
  {
    var wanted := lower(name);
    ghost var free, team := HasFreeName(lower, wanted), HasTeamName(lower, wanted);
    for i := 0 to |vaults|
      invariant FirstWith(vaults, free) == FirstWith(vaults[i..], free)
    {
      if FreeName(lower, vaults[i]) == Some(wanted) {
        return Some(vaults[i]);
      }
      assert vaults[i..][1..] == vaults[i + 1..];
    }
    for i := 0 to |vaults|
      invariant FirstWith(vaults, team) == FirstWith(vaults[i..], team)
    {
      if vaults[i].vaultType == Team {
        if TeamName(lower, vaults[i]) == Some(wanted) {
          return Some(vaults[i]);
        }
      }
      assert vaults[i..][1..] == vaults[i + 1..];
    }
    r := None;
  }

  /** The vaults a selector puts in scope. */
  function Scope(lower: string -> string, vaults: seq<Vault>, selector: VaultSelector): Option<seq<Vault>> {
    var found := match selector
      case Any => None
      case VaultId(id) => FirstWith(LoginVaults(vaults), HasId(id))
      case VaultName(name) => Named(lower, LoginVaults(vaults), name);
    if selector.Any? then Some(LoginVaults(vaults)) else if found.Some? then Some([found.value]) else None
  }

  method ResolveScope(lower: string -> string, vaults: seq<Vault>, selector: VaultSelector)
    returns (scope: Option<seq<Vault>>)
    ensures scope == Scope(lower, vaults, selector)
  {
    var loginVaults, found := LoginVaults(vaults), None;
    match selector {
      case Any => return Some(loginVaults);
      case VaultId(id) => found := FirstWith(loginVaults, HasId(id));
      case VaultName(name) => found := MatchVaultName(lower, loginVaults, name);
    }
    scope := if found.Some? then Some([found.value]) else None;
  }

  /** Collect one open vault's matches into the candidates so far. */
  method Collect(lower: string -> string, v: Vault, logins: seq<Login>, selector: LoginSelector, before: seq<Candidate>)
    returns (candidates: seq<Candidate>)
    ensures candidates == before + Matching(lower, v, logins, selector)
  {
    candidates := before;
    for j := 0 to |logins|
      invariant candidates == before + Matching(lower, v, logins[..j], selector)
    {
      assert logins[..j + 1][..j] == logins[..j];
      if LoginMatches(lower, logins[j], selector) {
        candidates := candidates + [Candidate(Tier(v.vaultType), logins[j])];
      }
    }
    assert logins[..|logins|] == logins;
  }

  method Run(lower: string -> string, vaults: seq<Vault>, which: VaultSelector, login: LoginSelector)
    returns (r: Located)
    ensures Scope(lower, vaults, which) == None ==> r == Failed(NoSuchVault)
    ensures Scope(lower, vaults, which).Some? ==>
      var scope := Scope(lower, vaults, which).value;
      var candidates := Gathered(lower, scope, login);
      if !which.Any? && scope[0].logins == None then r == Failed(VaultWillNotOpen)
      else if candidates == [] then r == Failed(NoSuchLogin)
      else r == Found(|candidates|, Rank(candidates).value)
  {
    var found := ResolveScope(lower, vaults, which);
    if found == None {
      return Failed(NoSuchVault);
    }
    var scope := found.value;
    var candidates: seq<Candidate> := [];
    for i := 0 to |scope|
      invariant candidates == Gathered(lower, scope[..i], login)
      invariant !which.Any? && i > 0 ==> scope[0].logins.Some?
    {
      assert scope[..i + 1][..i] == scope[..i];
      match scope[i].logins
      case None =>
        if !which.Any? {
          return Failed(VaultWillNotOpen);
        }
      case Some(logins) =>
        candidates := Collect(lower, scope[i], logins, login, candidates);
    }
    assert scope[..|scope|] == scope;
    RankIsLeast(candidates);
    if candidates == [] {
      return Failed(NoSuchLogin);
    }
    r := Found(|candidates|, Rank(candidates).value);
  }

  // ---- what was gathered

  lemma {:induction false} MatchingMeaning(lower: string -> string, v: Vault, logins: seq<Login>,
                                           selector: LoginSelector, c: Candidate)
    ensures c in Matching(lower, v, logins, selector) <==>
      c.tier == Tier(v.vaultType) && c.login in logins && LoginMatches(lower, c.login, selector)
  {
    if logins != [] {
      var init, last := logins[..|logins| - 1], logins[|logins| - 1];
      assert logins == init + [last];
      MatchingMeaning(lower, v, init, selector, c);
    }
  }

  /** A vault that opens holds this login, and the selector matches it. */
  predicate Offers(lower: string -> string, v: Vault, selector: LoginSelector, c: Candidate) {
    v.logins.Some? && c.login in v.logins.value && LoginMatches(lower, c.login, selector) && c.tier == Tier(v.vaultType)
  }

  lemma {:induction false} GatheredMeaning(lower: string -> string, scope: seq<Vault>, selector: LoginSelector,
                                           c: Candidate)
    ensures c in Gathered(lower, scope, selector) <==> exists v :: v in scope && Offers(lower, v, selector, c)
  {
    if scope != [] {
      var init, last := scope[..|scope| - 1], scope[|scope| - 1];
      assert scope == init + [last];
      GatheredMeaning(lower, init, selector, c);
      assert forall v :: v in scope <==> v in init || v == last;
      if last.logins.Some? {
        MatchingMeaning(lower, last, last.logins.value, selector, c);
      }
      assert c in Gathered(lower, scope, selector) <==>
          c in Gathered(lower, init, selector) || Offers(lower, last, selector, c);
    }
  }

  lemma {:induction false} InsertedByTierMembers(sorted: seq<Vault>, v: Vault)
    ensures multiset(InsertedByTier(sorted, v)) == multiset(sorted) + multiset{v}
  {
    if sorted != [] && Tier(v.vaultType) < Tier(sorted[|sorted| - 1].vaultType) {
      InsertedByTierMembers(sorted[..|sorted| - 1], v);
      assert sorted == sorted[..|sorted| - 1] + [sorted[|sorted| - 1]];
    }
  }

  lemma {:induction false} LoginVaultsMembers(vaults: seq<Vault>, v: Vault)
    ensures multiset(LoginVaults(vaults))[v] == if v.vaultType == Other then 0 else multiset(vaults)[v]
  {
    if vaults != [] {
      var init, last := vaults[..|vaults| - 1], vaults[|vaults| - 1];
      assert vaults == init + [last];
      LoginVaultsMembers(init, v);
      if last.vaultType != Other { InsertedByTierMembers(LoginVaults(init), last); }
    }
  }

  /** The candidates of a search over every vault are the matching logins of exactly the openable login vaults. */
  lemma CandidatesAre(lower: string -> string, vaults: seq<Vault>, selector: LoginSelector, c: Candidate)
    ensures c in Gathered(lower, LoginVaults(vaults), selector) <==>
      exists v :: v in vaults && v.vaultType != Other && Offers(lower, v, selector, c)
  {
    GatheredMeaning(lower, LoginVaults(vaults), selector, c);
    forall v ensures v in LoginVaults(vaults) <==> v in vaults && v.vaultType != Other {
      LoginVaultsMember(vaults, v);
    }
  }

  /**
   * A search over every vault answers with a login that some vault holds, such that no other match is in a vault of
   * an earlier kind unless it is archived or deleted and the answer is not, or deleted and the answer only archived.
   */
  lemma SearchAnswers(lower: string -> string, vaults: seq<Vault>, selector: LoginSelector, v: Vault, l: Login)
    requires v in vaults && v.vaultType != Other
    requires v.logins.Some? && l in v.logins.value && LoginMatches(lower, l, selector)
    ensures var answer := Rank(Gathered(lower, LoginVaults(vaults), selector));
      && answer.Some?
      && var r := answer.value.login;
         exists w :: w in vaults && w.logins.Some? && r in w.logins.value && LoginMatches(lower, r, selector)
           && w.vaultType != Other
           && (l.isDeleted == r.isDeleted && (l.isDeleted ==> l.isArchived == r.isArchived) ==>
                 && (v.vaultType == Private ==> w.vaultType == Private)
                 && (v.vaultType == OrganizationPersonal ==>
                       w.vaultType == Private || w.vaultType == OrganizationPersonal)
                 && (v.vaultType == Team ==> w.vaultType != Inbox))
  {
    var cs, c := Gathered(lower, LoginVaults(vaults), selector), Candidate(Tier(v.vaultType), l);
    CandidatesAre(lower, vaults, selector, c);
    assert Offers(lower, v, selector, c);
    RankMeaning(cs, c);
    var r := Rank(cs).value;
    CandidatesAre(lower, vaults, selector, r);
    var w :| w in vaults && w.vaultType != Other && Offers(lower, w, selector, r);
    TierOrder(v.vaultType, w.vaultType);
  }

  /** What a vault is called, whichever kind it is; inboxes and private vaults by a word of the program's own. */
  predicate AnswersTo(lower: string -> string, v: Vault, name: string) {
    || (v.vaultType == Private && lower(name) == "private")
    || (v.vaultType == Inbox && lower(name) == "inbox")
    || (v.vaultType == OrganizationPersonal && v.organization.Some? && lower(name) == lower(v.organization.value))
    || (v.vaultType == Team && v.team.Some? && lower(name) == lower(v.team.value))
  }

  /** A name finds a login vault that has it whenever there is one, and a team only when no free name is in the way. */
  lemma NameFinds(lower: string -> string, vaults: seq<Vault>, name: string)
    ensures var r := Named(lower, LoginVaults(vaults), name);
      && (r.Some? ==> r.value in vaults && r.value.vaultType != Other && AnswersTo(lower, r.value, name))
      && (r == None <==> forall v :: v in vaults && v.vaultType != Other ==> !AnswersTo(lower, v, name))
      && (r.Some? && r.value.vaultType == Team ==>
            forall v :: v in vaults && v.vaultType != Other && v.vaultType != Team ==> !AnswersTo(lower, v, name))
  {
    forall v ensures v in LoginVaults(vaults) <==> v in vaults && v.vaultType != Other {
      LoginVaultsMember(vaults, v);
    }
  }

  /** A number finds the login vault that has it, whenever there is one; no selector at all means every login vault. */
  lemma IdFinds(lower: string -> string, vaults: seq<Vault>, id: string)
    ensures var r := Scope(lower, vaults, VaultId(id));
      && (r == None <==> forall v :: v in vaults && v.vaultType != Other ==> v.id != id)
      && (r.Some? ==> |r.value| == 1 && r.value[0] in vaults && r.value[0].vaultType != Other && r.value[0].id == id)
    ensures var all := Scope(lower, vaults, Any);
      all.Some? && forall v :: v in all.value <==> v in vaults && v.vaultType != Other
  {
    forall v ensures v in LoginVaults(vaults) <==> v in vaults && v.vaultType != Other {
      LoginVaultsMember(vaults, v);
    }
  }

  /** A login answers to any of the texts it is shown by, in whatever case. */
  lemma NameMatches(lower: string -> string, login: Login, needle: string)
    ensures LoginMatches(lower, login, ByName(needle)) <==>
      exists shown :: (shown == login.title || shown in login.websites || login.displayHeadline == Some(shown))
                      && lower(shown) == lower(needle)
    ensures LoginMatches(lower, login, ById(needle)) <==> login.id == needle
  {
  }

  /** Matches are gathered in the order of the logins. */
  lemma {:induction false} MatchingInOrder(lower: string -> string, v: Vault, a: seq<Login>, b: seq<Login>,
                                           selector: LoginSelector)
    ensures Matching(lower, v, a + b, selector) == Matching(lower, v, a, selector) + Matching(lower, v, b, selector)
  {
    hide Matching;
    if b == [] {
      assert a + b == a;
      NoneMatching(lower, v, selector);
    } else {
      var init, last := b[..|b| - 1], b[|b| - 1];
      assert a + b == (a + init) + [last] && b == init + [last];
      MatchingInOrder(lower, v, a, init, selector);
      MatchingLast(lower, v, a + init, last, selector);
      MatchingLast(lower, v, init, last, selector);
    }
  }

  lemma NoneMatching(lower: string -> string, v: Vault, selector: LoginSelector)
    ensures Matching(lower, v, [], selector) == []
  {
  }

  lemma MatchingLast(lower: string -> string, v: Vault, init: seq<Login>, last: Login, selector: LoginSelector)
    ensures Matching(lower, v, init + [last], selector) == Matching(lower, v, init, selector) +
      if LoginMatches(lower, last, selector) then [Candidate(Tier(v.vaultType), last)] else []
  {
    hide LoginMatches;
    assert (init + [last])[..|init|] == init;
  }

  /** And the vaults one after the other. */
  lemma {:induction false} GatheredInOrder(lower: string -> string, a: seq<Vault>, b: seq<Vault>,
                                           selector: LoginSelector)
    ensures Gathered(lower, a + b, selector) == Gathered(lower, a, selector) + Gathered(lower, b, selector)
  {
    hide Gathered;
    if b == [] {
      assert a + b == a;
      NoneGathered(lower, selector);
    } else {
      var init, last := b[..|b| - 1], b[|b| - 1];
      assert a + b == (a + init) + [last] && b == init + [last];
      GatheredInOrder(lower, a, init, selector);
      GatheredLast(lower, a + init, last, selector);
      GatheredLast(lower, init, last, selector);
    }
  }

  lemma NoneGathered(lower: string -> string, selector: LoginSelector)
    ensures Gathered(lower, [], selector) == []
  {
  }

  /** A vault that opens adds its matches after those of the vaults before it. */
  lemma GatheredLast(lower: string -> string, init: seq<Vault>, last: Vault, selector: LoginSelector)
    ensures Gathered(lower, init + [last], selector) == Gathered(lower, init, selector) +
      if last.logins.Some? then Matching(lower, last, last.logins.value, selector) else []
  {
    hide Matching;
    assert (init + [last])[..|init|] == init;
  }

  lemma LoginVaultsMember(vaults: seq<Vault>, v: Vault)
    ensures v in LoginVaults(vaults) <==> v in vaults && v.vaultType != Other
  {
    LoginVaultsMembers(vaults, v);
    assert v in LoginVaults(vaults) <==> v in multiset(LoginVaults(vaults));
    assert v in vaults <==> v in multiset(vaults);
  }

  /** A live match always beats an archived or deleted one. */
  lemma LiveBeatsDeleted(cs: seq<Candidate>, c: Candidate)
    requires c in cs && !c.login.isDeleted
    ensures Rank(cs).Some? && !Rank(cs).value.login.isDeleted
  {
    RankIsLeast(cs);
  }

  // ---- the order of the vault list

  function Offered(lower: string -> string, v: Vault, selector: LoginSelector): nat {
    match v.logins case Some(logins) => |Matching(lower, v, logins, selector)| case None => 0
  }

  lemma GatheredNext(lower: string -> string, init: seq<Vault>, last: Vault, selector: LoginSelector)
    ensures |Gathered(lower, init + [last], selector)|
        == |Gathered(lower, init, selector)| + Offered(lower, last, selector)
  {
    assert (init + [last])[..|init|] == init;
  }

  /** A vault adds as many candidates as it offers, wherever it stands. */
  lemma {:induction false} GatheredWith(lower: string -> string, front: seq<Vault>, v: Vault, back: seq<Vault>,
                                        selector: LoginSelector)
    ensures |Gathered(lower, front + [v] + back, selector)|
         == |Gathered(lower, front + back, selector)| + Offered(lower, v, selector)
  {
    hide Gathered, Offered;
    if back == [] {
      assert front + [v] + back == front + [v] && front + back == front;
      GatheredNext(lower, front, v, selector);
    } else {
      var init, last := back[..|back| - 1], back[|back| - 1];
      assert front + [v] + back == (front + [v] + init) + [last] && front + back == (front + init) + [last];
      GatheredWith(lower, front, v, init, selector);
      GatheredNext(lower, front + [v] + init, last, selector);
      GatheredNext(lower, front + init, last, selector);
    }
  }

  lemma TakeOut<T>(init: seq<T>, last: T, b: seq<T>) returns (front: seq<T>, back: seq<T>)
    requires multiset(init + [last]) == multiset(b)
    ensures b == front + [last] + back && multiset(front + back) == multiset(init)
  {
    assert last in multiset(init + [last]);
    var i :| 0 <= i < |b| && b[i] == last;
    front, back := b[..i], b[i + 1..];
    assert b == front + [last] + back;
    TwoParts(front + [last], back);
    TwoParts(front, [last]);
    TwoParts(front, back);
    TwoParts(init, [last]);
    assert multiset(init) == multiset(b) - multiset{last};
  }

  lemma TwoParts<T>(x: seq<T>, y: seq<T>)
    ensures multiset(x + y) == multiset(x) + multiset(y)
  {
  }

  lemma {:induction false} CountIgnoresOrder(lower: string -> string, a: seq<Vault>, b: seq<Vault>,
                                             selector: LoginSelector)
    requires multiset(a) == multiset(b)
    ensures |Gathered(lower, a, selector)| == |Gathered(lower, b, selector)|
  {
    hide Gathered, Offered;
    if a == [] {
      assert |multiset(b)| == 0;
    } else {
      var init, last := a[..|a| - 1], a[|a| - 1];
      assert a == init + [last];
      var front, back := TakeOut(init, last, b);
      CountIgnoresOrder(lower, init, front + back, selector);
      GatheredWith(lower, front, last, back, selector);
      GatheredNext(lower, init, last, selector);
    }
  }

  /**
   * Reordering the account's vault list changes neither the number of matches nor, except between
   * candidates tied on all four keys, the answer.
   */
  lemma VaultOrderIrrelevant(lower: string -> string, a: seq<Vault>, b: seq<Vault>, selector: LoginSelector)
    requires multiset(a) == multiset(b)
    ensures var x, y := Gathered(lower, LoginVaults(a), selector), Gathered(lower, LoginVaults(b), selector);
      && |x| == |y|
      && (Rank(x).Some? <==> Rank(y).Some?)
      && (Rank(x).Some? ==> Tied(Rank(x).value, Rank(y).value))
  {
    var x, y := Gathered(lower, LoginVaults(a), selector), Gathered(lower, LoginVaults(b), selector);
    forall v ensures multiset(LoginVaults(a))[v] == multiset(LoginVaults(b))[v] {
      LoginVaultsMembers(a, v);
      LoginVaultsMembers(b, v);
    }
    CountIgnoresOrder(lower, LoginVaults(a), LoginVaults(b), selector);
    RankIsLeast(x);
    RankIsLeast(y);
    forall c ensures c in x <==> c in y {
      CandidatesAre(lower, a, selector, c);
      CandidatesAre(lower, b, selector, c);
      assert forall v :: v in a <==> v in multiset(a);
      assert forall v :: v in b <==> v in multiset(b);
    }
    if x != [] {
      BeforeIsOrder(Rank(x).value, Rank(y).value);
    }
  }

  // ---- how many were gathered

  /** Where in a list of logins the matching ones are. */
  function Hits(lower: string -> string, logins: seq<Login>, selector: LoginSelector): set<nat> {
    set j: nat | j < |logins| && LoginMatches(lower, logins[j], selector)
  }

  /** The matching entries of the login vaults that open: which vault, and where in it. */
  function AllHits(lower: string -> string, vaults: seq<Vault>, selector: LoginSelector): set<(nat, nat)> {
    set i: nat, j: nat | i < |vaults| && vaults[i].vaultType != Other && vaults[i].logins.Some?
                         && j in Hits(lower, vaults[i].logins.value, selector) :: (i, j)
  }

  lemma {:induction false} MatchingCount(lower: string -> string, v: Vault, logins: seq<Login>, selector: LoginSelector)
    ensures |Matching(lower, v, logins, selector)| == |Hits(lower, logins, selector)|
  {
    hide LoginMatches;
    if logins == [] {
      assert Hits(lower, logins, selector) == {};
    } else {
      MatchingCount(lower, v, logins[..|logins| - 1], selector);
      HitsGrow(lower, logins, selector);
      hide Hits;
    }
  }

  lemma HitsGrow(lower: string -> string, logins: seq<Login>, selector: LoginSelector)
    requires logins != []
    ensures var n := |logins| - 1;
      |Hits(lower, logins, selector)|
      == |Hits(lower, logins[..n], selector)| + if LoginMatches(lower, logins[n], selector) then 1 else 0
  {
    hide LoginMatches;
    var n := |logins| - 1;
    var all, most := Hits(lower, logins, selector), Hits(lower, logins[..n], selector);
    forall j: nat ensures j in all <==> j in most || (j == n && LoginMatches(lower, logins[n], selector)) {
      if j < n { assert logins[..n][j] == logins[j]; }
    }
    assert n !in most;
    hide Hits;
    assert all == if LoginMatches(lower, logins[n], selector) then most + {n} else most;
  }

  function Pairs(i: nat, js: set<nat>): set<(nat, nat)> { set j | j in js :: (i, j) }

  lemma {:induction false} PairsOf(i: nat, js: set<nat>)
    ensures |Pairs(i, js)| == |js|
  {
    if js == {} {
      assert Pairs(i, js) == {};
    } else {
      var k :| k in js;
      var fewer := js - {k};
      PairsOf(i, fewer);
      assert Pairs(i, js) == Pairs(i, fewer) + {(i, k)};
      assert (i, k) !in Pairs(i, fewer);
      assert js == fewer + {k};
    }
  }

  /** The number of matches is that of the matching entries of the login vaults that open, each counted once. */
  lemma {:induction false} MatchCount(lower: string -> string, vaults: seq<Vault>, selector: LoginSelector)
    ensures |Gathered(lower, LoginVaults(vaults), selector)| == |AllHits(lower, vaults, selector)|
  {
    hide Hits, Gathered;
    if vaults == [] {
      NothingGathered(lower, selector);
      assert AllHits(lower, vaults, selector) == {};
    } else {
      var n := |vaults| - 1;
      var init, last := vaults[..n], vaults[n];
      MatchCount(lower, init, selector);
      HitsNext(lower, init, last, selector);
      assert vaults == init + [last];
      if last.vaultType != Other {
        InsertedByTierMembers(LoginVaults(init), last);
        assert multiset(LoginVaults(vaults)) == multiset(LoginVaults(init) + [last]);
        CountIgnoresOrder(lower, LoginVaults(vaults), LoginVaults(init) + [last], selector);
        GatheredNext(lower, LoginVaults(init), last, selector);
        if last.logins.Some? { MatchingCount(lower, last, last.logins.value, selector); }
      }
    }
  }

  lemma NothingGathered(lower: string -> string, selector: LoginSelector)
    ensures Gathered(lower, LoginVaults([]), selector) == []
  {
  }

  lemma HitsNext(lower: string -> string, init: seq<Vault>, last: Vault, selector: LoginSelector)
    ensures |AllHits(lower, init + [last], selector)| == |AllHits(lower, init, selector)|
         + if last.vaultType != Other && last.logins.Some? then |Hits(lower, last.logins.value, selector)| else 0
  {
    var n, before, all := |init|, AllHits(lower, init, selector), AllHits(lower, init + [last], selector);
    var js := if last.vaultType != Other && last.logins.Some? then Hits(lower, last.logins.value, selector) else {};
    var added := Pairs(n, js);
    PairsOf(n, js);
    forall p ensures p in all <==> p in before || p in added { HitAt(lower, init, last, selector, p); }
    forall p ensures !(p in before && p in added) { HitAt(lower, init, last, selector, p); }
    hide AllHits, Hits;
    assert all == before + added;
    assert before !! added;
  }

  lemma HitAt(lower: string -> string, init: seq<Vault>, last: Vault, selector: LoginSelector, p: (nat, nat))
    ensures p in AllHits(lower, init, selector) ==> p.0 < |init|
    ensures p in AllHits(lower, init + [last], selector) <==>
      || p in AllHits(lower, init, selector)
      || (&& p.0 == |init| && last.vaultType != Other && last.logins.Some?
          && p.1 in Hits(lower, last.logins.value, selector))
  {
    hide Hits;
    assert p == (p.0, p.1);
    assert p.0 < |init| ==> (init + [last])[p.0] == init[p.0];
  }

  // ---- the order of the vault list, for a selector that picks one vault

  predicate Eligible(vaults: seq<Vault>, wanted: Vault -> bool, v: Vault) {
    v in vaults && v.vaultType != Other && wanted(v)
  }

  /** An eligible vault of the first tier that has one. */
  ghost predicate Best(vaults: seq<Vault>, wanted: Vault -> bool, v: Vault) {
    && Eligible(vaults, wanted, v)
    && forall u :: Eligible(vaults, wanted, u) ==> Tier(v.vaultType) <= Tier(u.vaultType)
  }

  ghost predicate OneBest(vaults: seq<Vault>, wanted: Vault -> bool) {
    forall v, w :: Best(vaults, wanted, v) && Best(vaults, wanted, w) ==> v == w
  }

  predicate InTierOrder(vaults: seq<Vault>) {
    forall i, j :: 0 <= i < j < |vaults| ==> Tier(vaults[i].vaultType) <= Tier(vaults[j].vaultType)
  }

  lemma {:induction false} InsertedByTierInOrder(sorted: seq<Vault>, v: Vault)
    requires InTierOrder(sorted)
    ensures InTierOrder(InsertedByTier(sorted, v))
  {
    if sorted != [] {
      var init, last := sorted[..|sorted| - 1], sorted[|sorted| - 1];
      if Tier(v.vaultType) < Tier(last.vaultType) {
        InsertedByTierInOrder(init, v);
        InsertedByTierMembers(init, v);
        var inserted := InsertedByTier(init, v);
        forall u | u in inserted ensures Tier(u.vaultType) <= Tier(last.vaultType) {
          assert u in multiset(inserted);
          assert u in multiset(init) || u == v;
        }
        AppendedInOrder(inserted, last);
      } else {
        AppendedInOrder(sorted, v);
      }
    }
  }

  lemma AppendedInOrder(sorted: seq<Vault>, v: Vault)
    requires InTierOrder(sorted) && forall u :: u in sorted ==> Tier(u.vaultType) <= Tier(v.vaultType)
    ensures InTierOrder(sorted + [v])
  {
  }

  lemma {:induction false} LoginVaultsInOrder(vaults: seq<Vault>)
    ensures InTierOrder(LoginVaults(vaults))
  {
    hide InTierOrder, InsertedByTier;
    assert InTierOrder([]) by { NothingInOrder(); }
    if vaults != [] {
      LoginVaultsInOrder(vaults[..|vaults| - 1]);
      InsertedByTierInOrder(LoginVaults(vaults[..|vaults| - 1]), vaults[|vaults| - 1]);
    }
  }

  lemma NothingInOrder()
    ensures InTierOrder([])
  {
  }

  lemma {:induction false} FirstWithAppend(vaults: seq<Vault>, last: Vault, wanted: Vault -> bool)
    ensures FirstWith(vaults + [last], wanted) ==
      if FirstWith(vaults, wanted).Some? then FirstWith(vaults, wanted) else if wanted(last) then Some(last) else None
  {
    if vaults != [] {
      assert (vaults + [last])[1..] == vaults[1..] + [last];
      FirstWithAppend(vaults[1..], last, wanted);
    } else {
      assert vaults + [last] == [last];
    }
  }

  /** Inserting a vault changes the choice only to itself, and only from a later tier. */
  lemma {:induction false} FirstInserted(sorted: seq<Vault>, v: Vault, wanted: Vault -> bool)
    requires InTierOrder(sorted)
    ensures var f := FirstWith(sorted, wanted);
      FirstWith(InsertedByTier(sorted, v), wanted) ==
        if wanted(v) && (f == None || Tier(v.vaultType) < Tier(f.value.vaultType)) then Some(v) else f
  {
    hide FirstWith;
    if sorted == [] || Tier(v.vaultType) >= Tier(sorted[|sorted| - 1].vaultType) {
      FirstWithAppend(sorted, v, wanted);
    } else {
      var init, last := sorted[..|sorted| - 1], sorted[|sorted| - 1];
      assert sorted == init + [last];
      FirstInserted(init, v, wanted);
      FirstWithAppend(InsertedByTier(init, v), last, wanted);
      FirstWithAppend(init, last, wanted);
    }
  }

  function Choice(vaults: seq<Vault>, wanted: Vault -> bool): Option<Vault> {
    FirstWith(LoginVaults(vaults), wanted)
  }

  lemma ChoiceNext(vaults: seq<Vault>, last: Vault, wanted: Vault -> bool)
    ensures var f := Choice(vaults, wanted);
      Choice(vaults + [last], wanted) ==
        if last.vaultType != Other && wanted(last) && (f == None || Tier(last.vaultType) < Tier(f.value.vaultType))
        then Some(last) else f
  {
    hide FirstWith, InsertedByTier, InTierOrder;
    assert (vaults + [last])[..|vaults|] == vaults;
    LoginVaultsInOrder(vaults);
    FirstInserted(LoginVaults(vaults), last, wanted);
  }

  /** The choice is the first, in the account's own order, of the best. */
  lemma {:induction false} ChoiceIsBest(vaults: seq<Vault>, wanted: Vault -> bool)
    ensures Choice(vaults, wanted) == None <==> forall u :: !Eligible(vaults, wanted, u)
    ensures Choice(vaults, wanted).Some? ==> Best(vaults, wanted, Choice(vaults, wanted).value)
  {
    hide Choice;
    if vaults == [] {
      NoChoice(wanted);
    } else {
      var init, last := vaults[..|vaults| - 1], vaults[|vaults| - 1];
      assert vaults == init + [last];
      ChoiceIsBest(init, wanted);
      ChoiceNext(init, last, wanted);
      forall u ensures Eligible(vaults, wanted, u) <==>
        Eligible(init, wanted, u) || (u == last && last.vaultType != Other && wanted(last)) {}
      assert Eligible(vaults, wanted, last) <==> last.vaultType != Other && wanted(last);
      var f := Choice(init, wanted);
      if f.Some? { assert Eligible(vaults, wanted, f.value); }
      hide Eligible;
    }
  }

  lemma NoChoice(wanted: Vault -> bool)
    ensures Choice([], wanted) == None
  {
  }

  /** A best vault put first is chosen. */
  lemma {:induction false} FrontWins(v: Vault, rest: seq<Vault>, wanted: Vault -> bool)
    requires Best([v] + rest, wanted, v)
    ensures Choice([v] + rest, wanted) == Some(v)
  {
    hide Choice;
    if rest == [] {
      NoChoice(wanted);
      ChoiceNext([], v, wanted);
      assert [] + [v] == [v] && [v] + rest == [v];
    } else {
      var init, last := rest[..|rest| - 1], rest[|rest| - 1];
      assert [v] + rest == ([v] + init) + [last];
      forall u ensures Eligible([v] + init, wanted, u) ==> Eligible([v] + rest, wanted, u) {}
      FrontWins(v, init, wanted);
      ChoiceNext([v] + init, last, wanted);
      assert last.vaultType != Other && wanted(last) ==> Eligible([v] + rest, wanted, last);
    }
  }

  lemma SameBest(a: seq<Vault>, b: seq<Vault>, wanted: Vault -> bool, v: Vault)
    requires multiset(a) == multiset(b)
    ensures Best(a, wanted, v) <==> Best(b, wanted, v)
    ensures Eligible(a, wanted, v) <==> Eligible(b, wanted, v)
  {
    forall u ensures Eligible(a, wanted, u) <==> Eligible(b, wanted, u) {
      assert u in a <==> u in multiset(a);
      assert u in b <==> u in multiset(b);
    }
  }

  /** Another best vault is what some other order of the list chooses. */
  lemma OtherOrder(a: seq<Vault>, wanted: Vault -> bool, v: Vault) returns (b: seq<Vault>)
    requires Best(a, wanted, v)
    ensures multiset(b) == multiset(a) && Choice(b, wanted) == Some(v)
  {
    hide Choice, Best;
    assert v in a by { BestIsThere(a, wanted, v); }
    var i :| 0 <= i < |a| && a[i] == v;
    var front, back := a[..i], a[i + 1..];
    assert a == front + [v] + back;
    b := [v] + (front + back);
    TwoParts(front + [v], back);
    TwoParts(front, [v]);
    TwoParts([v], front + back);
    TwoParts(front, back);
    SameBest(a, b, wanted, v);
    FrontWins(v, front + back, wanted);
  }

  lemma BestIsThere(a: seq<Vault>, wanted: Vault -> bool, v: Vault)
    requires Best(a, wanted, v)
    ensures v in a
  {
  }

  /** The list's order does not decide a choice exactly when one vault alone is best. */
  lemma ChoiceIgnoresOrder(a: seq<Vault>, wanted: Vault -> bool)
    ensures (forall b :: multiset(b) == multiset(a) ==> Choice(b, wanted) == Choice(a, wanted)) <==> OneBest(a, wanted)
  {
    hide Choice, Best, Eligible;
    if OneBest(a, wanted) {
      forall b | multiset(b) == multiset(a) ensures Choice(b, wanted) == Choice(a, wanted) {
        ChoiceIsBest(a, wanted);
        ChoiceIsBest(b, wanted);
        forall v { SameBest(a, b, wanted, v); }
      }
    } else {
      var v, w :| Best(a, wanted, v) && Best(a, wanted, w) && v != w;
      var b := OtherOrder(a, wanted, if Choice(a, wanted) == Some(v) then w else v);
    }
  }

  /** What a selector that picks one vault looks for: a team's name only if no vault has the free name. */
  function Wanted(lower: string -> string, vaults: seq<Vault>, which: VaultSelector): Vault -> bool
    requires !which.Any?
  {
    match which
    case VaultId(id) => HasId(id)
    case VaultName(name) =>
      if Choice(vaults, HasFreeName(lower, lower(name))).Some? then HasFreeName(lower, lower(name))
      else HasTeamName(lower, lower(name))
  }

  lemma ScopeIsChoice(lower: string -> string, vaults: seq<Vault>, which: VaultSelector)
    requires !which.Any?
    ensures var v := Choice(vaults, Wanted(lower, vaults, which));
      Scope(lower, vaults, which) == if v.Some? then Some([v.value]) else None
  {
  }

  lemma SameWanted(lower: string -> string, a: seq<Vault>, b: seq<Vault>, which: VaultSelector)
    requires !which.Any? && multiset(a) == multiset(b)
    ensures Wanted(lower, a, which) == Wanted(lower, b, which)
  {
    hide Choice, Eligible, Best;
    if which.VaultName? {
      var free := HasFreeName(lower, lower(which.name));
      ChoiceIsBest(a, free);
      ChoiceIsBest(b, free);
      forall v { SameBest(a, b, free, v); }
    }
  }

  /**
   * Reordering the account's vault list changes what a named or numbered vault means, and so the answer, unless
   * one vault alone of the first tier that has such a one answers to it.
   */
  lemma SelectorIgnoresOrder(lower: string -> string, a: seq<Vault>, which: VaultSelector)
    requires !which.Any?
    ensures (forall b :: multiset(b) == multiset(a) ==> Scope(lower, b, which) == Scope(lower, a, which))
      <==> OneBest(a, Wanted(lower, a, which))
  {
    var wanted := Wanted(lower, a, which);
    hide Choice, Scope, OneBest, Wanted;
    ChoiceIgnoresOrder(a, wanted);
    ScopeIsChoice(lower, a, which);
    forall b | multiset(b) == multiset(a)
      ensures Scope(lower, b, which) == Scope(lower, a, which) <==> Choice(b, wanted) == Choice(a, wanted)
    {
      SameWanted(lower, a, b, which);
      ScopeIsChoice(lower, b, which);
    }
  }
}
