/** The facilitator's report component: which members are still pending,
    when the raffle may be drawn, the draw itself, the presence flip, and
    the open and reset transitions. */
module Report {
  import opened Interfaces
  import opened Seqs
  import opened Sorting

  /** The fixed prize every absent member receives instead of a draw. */
  const LOWEST_PRIZE := 5000

  // ---------------------------------------------------------------------
  // Read models

  /** `optionsData.find(o => o.value === name) !== undefined`: some raffle
      number carries `name` as its value. */
  predicate NameTaken(options: seq<Option>, name: string) {
    Find(options, (o: Option) => o.value == name).Defined?
  }

  /** The members none of whose names appears as the value of a raffle
      number, in roster order. */
  function Pending(members: seq<Member>, options: seq<Option>): (r: seq<Member>)
    ensures |r| <= |members|
    ensures forall i :: 0 <= i < |r| ==>
              r[i] in members && forall j :: 0 <= j < |options| ==> options[j].value != r[i].name
  {
    var r := Filter(members, (m: Member) => !NameTaken(options, m.name));
    assert forall i :: 0 <= i < |r| ==> r[i] in r;
    r
  }

  /** The members marked absent, in roster order. */
  function AbsentMembers(members: seq<Member>): seq<Member> {
    Filter(members, (m: Member) => m.status == "absent")
  }

  function AbsentMembersCount(members: seq<Member>): (n: nat)
    ensures n <= |members|
    ensures n == 0 <==> forall i :: 0 <= i < |members| ==> members[i].status != "absent"
    ensures n == |members| <==> forall i :: 0 <= i < |members| ==> members[i].status == "absent"
  {
    FilterEmpty(members, (m: Member) => m.status == "absent");
    FilterAllIff(members, (m: Member) => m.status == "absent");
    |AbsentMembers(members)|
  }

  /** The raffle numbers somebody has claimed, in their original order
      (`filteredOptionArray`). */
  function ClaimedOptions(options: seq<Option>): seq<Option> {
    Filter(options, (o: Option) => o.value != "")
  }

  /** `doneMembersCount`: how many raffle numbers have been claimed. */
  function DoneMembersCount(options: seq<Option>): (n: nat)
    ensures n <= |options|
    ensures n == 0 <==> forall i :: 0 <= i < |options| ==> options[i].value == ""
    ensures n == |options| <==> forall i :: 0 <= i < |options| ==> options[i].value != ""
  {
    FilterEmpty(options, (o: Option) => o.value != "");
    FilterAllIff(options, (o: Option) => o.value != "");
    |ClaimedOptions(options)|
  }

  /** `submitWillShow`, over the component's three pieces of state. */
  predicate SubmitWillShow(pending: seq<Member>, teamMembers: seq<Member>, optionsArray: seq<Option>) {
    |pending| == 0
    || AbsentMembersCount(teamMembers) + DoneMembersCount(optionsArray) == |teamMembers|
  }

  /** A member is pending exactly when no raffle number's value is its name;
      the pending list holds each such member as often as the roster does,
      and no other member. */
  lemma PendingExactly(members: seq<Member>, options: seq<Option>)
    ensures forall m :: multiset(Pending(members, options))[m]
                    == if forall i :: 0 <= i < |options| ==> options[i].value != m.name
                       then multiset(members)[m] else 0
  {
    FilterMultiset(members, (m: Member) => !NameTaken(options, m.name));
  }

  /** The pending list keeps roster order: the pending members of a roster
      are those of its first `k` members followed by those of the rest. */
  lemma PendingInRosterOrder(members: seq<Member>, options: seq<Option>, k: nat)
    requires k <= |members|
    ensures Pending(members, options)
         == Pending(members[..k], options) + Pending(members[k..], options)
  {
    FilterSplit(members, k, (m: Member) => !NameTaken(options, m.name));
  }

  /** Nobody is pending exactly when every member's name is the value of
      some raffle number. */
  lemma PendingEmpty(members: seq<Member>, options: seq<Option>)
    ensures Pending(members, options) == []
        <==> forall i :: 0 <= i < |members| ==>
               exists j :: 0 <= j < |options| && options[j].value == members[i].name
  {
    FilterEmpty(members, (m: Member) => !NameTaken(options, m.name));
  }

  /** With the pending list derived from the current roster and numbers,
      Submit is offered exactly when every member has a number or every
      member is accounted for by the absent count plus the claimed count. */
  lemma SubmitWillShowMeaning(members: seq<Member>, options: seq<Option>)
    ensures SubmitWillShow(Pending(members, options), members, options)
        <==> (forall i :: 0 <= i < |members| ==>
                exists j :: 0 <= j < |options| && options[j].value == members[i].name)
             || AbsentMembersCount(members) + DoneMembersCount(options) == |members|
  {
    PendingEmpty(members, options);
  }

  // ---------------------------------------------------------------------
  // Prize allocation

  function Min(a: int, b: int): int {
    if a <= b then a else b
  }

  /** The prizes left to draw: the ascending sort of the prizes without its
      `absentCount` lowest elements (all of them if there are fewer). */
  function DrawPool(prizes: seq<int>, absentCount: nat): (pool: seq<int>)
    ensures |pool| == if absentCount <= |prizes| then |prizes| - absentCount else 0
    ensures Sorted(pool)
    ensures multiset(pool) <= multiset(prizes)
    ensures |multiset(prizes) - multiset(pool)| == Min(absentCount, |prizes|)
    ensures forall x, y :: x in multiset(prizes) - multiset(pool) && y in pool ==> x <= y
  {
    var sorted := Sort(prizes);
    var k := Min(absentCount, |sorted|);
    DropLowest(sorted, k);
    sorted[k..]
  }

  /** Cutting the first `k` elements off an ascending sequence removes
      exactly those `k`, each at most every element that remains. */
  lemma DropLowest(s: seq<int>, k: nat)
    requires Sorted(s) && k <= |s|
    ensures Sorted(s[k..])
    ensures multiset(s[k..]) <= multiset(s)
    ensures multiset(s) - multiset(s[k..]) == multiset(s[..k])
    ensures forall x, y :: x in multiset(s) - multiset(s[k..]) && y in s[k..] ==> x <= y
  {
    assert s == s[..k] + s[k..];
    assert forall x :: x in multiset(s[..k]) ==> x in s[..k];
  }

  /** The pool does not depend on how the prizes were sorted: it is what
      remains of any ascending arrangement of them once the lowest
      `absentCount` are cut off. */
  lemma DrawPoolOfAnySortedArrangement(prizes: seq<int>, absentCount: nat, t: seq<int>)
    requires Sorted(t) && multiset(t) == multiset(prizes)
    ensures DrawPool(prizes, absentCount) == t[Min(absentCount, |t|)..]
  {
    SortIsTheSortedPermutation(prizes, t);
  }

  /** The `shuffledPrizes.map(...)` entries: shuffled prize `i` goes to
      claimed number `i`. */
  function DrawEntries(shuffled: seq<int>, claimed: seq<Option>): seq<RaffleResult>
    requires |shuffled| <= |claimed|
  {
    seq(|shuffled|, i requires 0 <= i < |shuffled| =>
      RaffleResult(claimed[i].value, claimed[i].lbl, shuffled[i]))
  }

  /** The `absentMemberPrizes` entries: one per absent member. */
  function AbsenteeEntries(members: seq<Member>): seq<RaffleResult> {
    var absent := AbsentMembers(members);
    seq(|absent|, i requires 0 <= i < |absent| => RaffleResult(absent[i].name, "-", LOWEST_PRIZE))
  }

  /** Reading `selected.value` for a prize with no claimed number left
      throws before anything is written. */
  datatype AllocationError = SelectedUndefined

  /** The results the draw stores for a given outcome of the shuffle. */
  function Allocation(shuffled: seq<int>, optionsArray: seq<Option>, teamMembers: seq<Member>)
    : (r: Result<seq<RaffleResult>, AllocationError>)
    ensures r.Err? <==> |shuffled| > DoneMembersCount(optionsArray)
    ensures r.Ok? ==> |r.value| == |shuffled| + AbsentMembersCount(teamMembers)
  {
    var claimed := ClaimedOptions(optionsArray);
    if |shuffled| > |claimed| then Err(SelectedUndefined)
    else Ok(DrawEntries(shuffled, claimed) + AbsenteeEntries(teamMembers))
  }

  /** A JavaScript array of numbers: the first `length` cells of `elems`. */
  class PrizeArray {
    var elems: array<int>
    var length: nat

    ghost predicate Valid()
      reads this
    {
      length <= elems.Length
    }

    function Contents(): seq<int>
      reads this, elems
      requires Valid()
    {
      elems[..length]
    }

    constructor FromSeq(s: seq<int>)
      ensures Valid() && fresh(elems)
      ensures Contents() == s
    {
      elems := new int[|s|](i requires 0 <= i < |s| => s[i]);
      length := |s|;
    }

    /** `splice(start, deleteCount)`: removes up to `deleteCount` elements
        from `start` on, shifting the rest down in place, and returns the
        removed elements. */
    method Splice(start: nat, deleteCount: nat) returns (removed: seq<int>)
      requires Valid()
      modifies this, elems
      ensures Valid() && elems == old(elems)
      ensures var s := Min(start, old(length));
              var e := Min(s + deleteCount, old(length));
              removed == old(Contents())[s..e]
              && Contents() == old(Contents())[..s] + old(Contents())[e..]
    {
      ghost var was := Contents();
      var s := Min(start, length);
      var e := Min(s + deleteCount, length);
      removed := elems[s..e];
      ShiftDown(elems, s, e, length);
      length := length - (e - s);
      assert Contents() == was[..s] + was[e..];
    }
  }

  /** Moves `a[e..n]` down to start at `s`, in place, leaving the cells
      before `s` alone. */
  method ShiftDown(a: array<int>, s: nat, e: nat, n: nat)
    requires s <= e <= n <= a.Length
    modifies a
    ensures a[..n - (e - s)] == old(a[..s]) + old(a[e..n])
  {
    ghost var was := a[..];
    var d := e - s;
    var i := s;
    while i < n - d
      invariant s <= i <= n - d
      invariant forall k :: 0 <= k < s ==> a[k] == was[k]
      invariant forall k :: s <= k < i ==> a[k] == was[k + d]
      invariant forall k :: i <= k < a.Length ==> a[k] == was[k]
    {
      a[i] := a[i + d];
      i := i + 1;
    }
    assert forall k :: 0 <= k < n - d ==> a[k] == (was[..s] + was[e..n])[k];
  }

  /** `submitClicked`: read the team's prizes (none when the document is
      missing), sort them, cut the lowest `absentMembersCount` off in place,
      shuffle what remains (any permutation may come out), pair it with the
      claimed numbers and append the absentee entries. Returns the shuffle's
      outcome, the results or the error that stops the draw, and the store
      with the results document written (unchanged after an error). */
  method SubmitClicked(store: Store, teamName: string, teamMembers: seq<Member>, optionsArray: seq<Option>)
    returns (shuffledPrizes: seq<int>, results: Result<seq<RaffleResult>, AllocationError>, written: Store)
    ensures multiset(shuffledPrizes)
            == multiset(DrawPool(TeamPrizesOf(store, teamName), AbsentMembersCount(teamMembers)))
    ensures results == Allocation(shuffledPrizes, optionsArray, teamMembers)
    ensures results.Ok? ==> written == store.(results := store.results[teamName := results.value])
    ensures results.Err? ==> written == store
  {
    var prizes := TeamPrizesOf(store, teamName);
    var sortedPrizes := new PrizeArray.FromSeq(Sort(prizes));
    var absentMembersCount := AbsentMembersCount(teamMembers);
    if absentMembersCount > 0 {
      var _ := sortedPrizes.Splice(0, absentMembersCount);
    }
    var pool := sortedPrizes.Contents();
    assert pool == DrawPool(prizes, absentMembersCount);
    shuffledPrizes :| multiset(shuffledPrizes) == multiset(pool);
    var filteredOptionArray := ClaimedOptions(optionsArray);
    if |shuffledPrizes| > |filteredOptionArray| {
      results := Err(SelectedUndefined);
    } else {
      var raffleResults := DrawEntries(shuffledPrizes, filteredOptionArray);
      var absentMemberPrizes := AbsenteeEntries(teamMembers);
      results := Ok(raffleResults + absentMemberPrizes);
    }
    written := if results.Ok? then store.(results := store.results[teamName := results.value]) else store;
  }

  /** The prizes column of a list of results. */
  function PrizeColumn(results: seq<RaffleResult>): seq<int> {
    seq(|results|, i requires 0 <= i < |results| => results[i].prize)
  }

  /** Entry `i < |shuffled|` gives the `i`-th shuffled prize to the `i`-th
      claimed number and its claimant; after them come the absent members in
      roster order, each with option "-" and the fixed lowest prize. */
  lemma AllocationEntries(shuffled: seq<int>, optionsArray: seq<Option>, teamMembers: seq<Member>)
    requires |shuffled| <= DoneMembersCount(optionsArray)
    ensures var r := Allocation(shuffled, optionsArray, teamMembers);
            var claimed, absent := ClaimedOptions(optionsArray), AbsentMembers(teamMembers);
            r.Ok? && |r.value| == |shuffled| + |absent|
            && (forall i :: 0 <= i < |shuffled| ==>
                  r.value[i] == RaffleResult(claimed[i].value, claimed[i].lbl, shuffled[i]))
            && (forall i :: 0 <= i < |absent| ==>
                  r.value[|shuffled| + i] == RaffleResult(absent[i].name, "-", LOWEST_PRIZE))
  {
  }

  /** The prizes handed out are the shuffled draw pool, a permutation of
      the sorted prizes without the lowest `absentCount`, plus one fixed
      lowest prize per absent member. */
  lemma AllocationPrizes(prizes: seq<int>, shuffled: seq<int>, optionsArray: seq<Option>, teamMembers: seq<Member>)
    requires multiset(shuffled) == multiset(DrawPool(prizes, AbsentMembersCount(teamMembers)))
    requires Allocation(shuffled, optionsArray, teamMembers).Ok?
    ensures var r := Allocation(shuffled, optionsArray, teamMembers).value;
            multiset(PrizeColumn(r))
            == multiset(DrawPool(prizes, AbsentMembersCount(teamMembers)))
               + multiset(seq(AbsentMembersCount(teamMembers), _ => LOWEST_PRIZE))
  {
    var r := Allocation(shuffled, optionsArray, teamMembers).value;
    var n := AbsentMembersCount(teamMembers);
    var fixed := seq(n, _ => LOWEST_PRIZE);
    AllocationEntries(shuffled, optionsArray, teamMembers);
    assert |PrizeColumn(r)| == |shuffled + fixed|;
    forall i | 0 <= i < |r|
      ensures PrizeColumn(r)[i] == (shuffled + fixed)[i]
    {
      if i < |shuffled| {
        assert r[i].prize == shuffled[i];
      } else {
        assert r[|shuffled| + (i - |shuffled|)].prize == LOWEST_PRIZE;
      }
    }
    assert PrizeColumn(r) == shuffled + fixed;
  }

  /** When the pool is as long as the list of claimed numbers, every claimed
      number appears exactly once, in order, with its claimant. */
  lemma AllocationCoversClaims(shuffled: seq<int>, optionsArray: seq<Option>, teamMembers: seq<Member>)
    requires |shuffled| == DoneMembersCount(optionsArray)
    ensures var r := Allocation(shuffled, optionsArray, teamMembers);
            r.Ok?
            && seq(|shuffled|, i requires 0 <= i < |shuffled| => Option(r.value[i].option, r.value[i].name))
               == ClaimedOptions(optionsArray)
  {
    var r := Allocation(shuffled, optionsArray, teamMembers).value;
    AllocationEntries(shuffled, optionsArray, teamMembers);
    assert forall i :: 0 <= i < |shuffled| ==>
      Option(r[i].option, r[i].name) == ClaimedOptions(optionsArray)[i];
  }

  predicate NamesDistinct(members: seq<Member>) {
    forall i, j :: 0 <= i < j < |members| ==> members[i].name != members[j].name
  }

  /** Submit is only offered when the draw can pair every pooled prize
      with a claimed number, provided the team has one prize per member and
      distinct, non-empty member names. */
  lemma SubmitGateAllocates(prizes: seq<int>, members: seq<Member>, options: seq<Option>, shuffled: seq<int>)
    requires |prizes| == |members|
    requires NamesDistinct(members)
    requires forall i :: 0 <= i < |members| ==> members[i].name != ""
    requires SubmitWillShow(Pending(members, options), members, options)
    requires multiset(shuffled) == multiset(DrawPool(prizes, AbsentMembersCount(members)))
    ensures Allocation(shuffled, options, members).Ok?
  {
    var pool := DrawPool(prizes, AbsentMembersCount(members));
    assert |shuffled| == |multiset(shuffled)| == |pool|;
    if AbsentMembersCount(members) + DoneMembersCount(options) != |members| {
      PendingEmpty(members, options);
      DistinctClaimantsFit(members, options);
    }
  }

  /** Members with distinct, non-empty names who all hold a number need at
      least as many claimed numbers as there are members. */
  lemma DistinctClaimantsFit(members: seq<Member>, options: seq<Option>)
    requires NamesDistinct(members)
    requires forall i :: 0 <= i < |members| ==> members[i].name != ""
    requires forall i :: 0 <= i < |members| ==>
               exists j :: 0 <= j < |options| && options[j].value == members[i].name
    ensures |members| <= DoneMembersCount(options)
  {
    var claimed := ClaimedOptions(options);
    var names := seq(|members|, i requires 0 <= i < |members| => members[i].name);
    var values := seq(|claimed|, j requires 0 <= j < |claimed| => claimed[j].value);
    forall i | 0 <= i < |names|
      ensures names[i] in values
    {
      var j :| 0 <= j < |options| && options[j].value == members[i].name;
      FilterKeeps(options, (o: Option) => o.value != "", options[j]);
      var k :| 0 <= k < |claimed| && claimed[k] == options[j];
      assert values[k] == names[i];
    }
    Pigeonhole(names, values);
  }

  /** The gate does not make the draw fair: a member marked absent who
      still claimed a number takes a drawn prize and the absentee prize,
      while another claimant is left without any entry. */
  lemma AbsentClaimantExample(shuffled: seq<int>)
    requires multiset(shuffled) == multiset(DrawPool([10, 20], 1))
    ensures var members := [Member("A", "a", "absent"), Member("B", "b", "present")];
            var options := [Option("1", "A"), Option("2", "B")];
            SubmitWillShow(Pending(members, options), members, options)
            && Allocation(shuffled, options, members)
               == Ok([RaffleResult("A", "1", 20), RaffleResult("A", "-", LOWEST_PRIZE)])
  {
    var members := [Member("A", "a", "absent"), Member("B", "b", "present")];
    var options := [Option("1", "A"), Option("2", "B")];
    DrawPoolExample();
    assert shuffled == [20] by {
      assert multiset(shuffled) == multiset{20};
      assert |shuffled| == 1;
      assert shuffled[0] in multiset(shuffled);
    }
    ExampleReadModel(members, options);
    ExampleAllocation(members, options);
  }

  lemma ExampleAllocation(members: seq<Member>, options: seq<Option>)
    requires members == [Member("A", "a", "absent"), Member("B", "b", "present")]
    requires options == [Option("1", "A"), Option("2", "B")]
    requires AbsentMembers(members) == [members[0]]
    requires ClaimedOptions(options) == options
    ensures Allocation([20], options, members)
            == Ok([RaffleResult("A", "1", 20), RaffleResult("A", "-", LOWEST_PRIZE)])
  {
    var drawn := DrawEntries([20], options);
    assert drawn == [RaffleResult("A", "1", 20)] by {
      assert |drawn| == 1 && drawn[0] == RaffleResult(options[0].value, options[0].lbl, 20);
    }
    var fixed := AbsenteeEntries(members);
    assert fixed == [RaffleResult("A", "-", LOWEST_PRIZE)] by {
      assert |fixed| == 1 && fixed[0] == RaffleResult(members[0].name, "-", LOWEST_PRIZE);
    }
    assert drawn + fixed == [RaffleResult("A", "1", 20), RaffleResult("A", "-", LOWEST_PRIZE)];
  }

  lemma ExampleReadModel(members: seq<Member>, options: seq<Option>)
    requires members == [Member("A", "a", "absent"), Member("B", "b", "present")]
    requires options == [Option("1", "A"), Option("2", "B")]
    ensures Pending(members, options) == []
    ensures AbsentMembers(members) == [members[0]]
    ensures ClaimedOptions(options) == options
  {
    PendingEmpty(members, options);
    assert options[0].value == members[0].name && options[1].value == members[1].name;
    FilterAll(options, (o: Option) => o.value != "");
    var p := (m: Member) => m.status == "absent";
    assert members == [members[0]] + [members[1]];
    FilterConcat([members[0]], [members[1]], p);
    assert [members[0]][1..] == [] && [members[1]][1..] == [];
    assert Filter([members[1]], p) == [];
  }

  lemma DrawPoolExample()
    ensures DrawPool([10, 20], 1) == [20]
  {
    assert [10, 20][1..] == [20];
    assert [20][1..] == [];
    assert Sort([20]) == [20];
    assert Sort([10, 20]) == Insert(10, [20]) == [10, 20];
  }

  // ---------------------------------------------------------------------
  // Presence flip

  datatype StatusError = TeamDocumentMissing | MemberNotFound

  /** `members.findIndex(member => member.name === code)`: the flip is
      addressed by the name shown in the pending table. */
  function MemberIndex(members: seq<Member>, code: string): int {
    FindIndex(members, (m: Member) => m.name == code)
  }

  /** The `setMemberStatus` transaction on a snapshot of the team document:
      the team document that is written back, or the error that aborts the
      transaction (a missing document, or `members[-1]` being undefined). */
  function StatusUpdate(snapshot: Maybe<Teams>, status: string, code: string)
    : (r: Result<Teams, StatusError>)
    ensures r == Err(TeamDocumentMissing) <==> snapshot.Undefined?
    ensures r.Ok? <==> snapshot.Defined?
                       && exists i :: 0 <= i < |snapshot.value.members| && snapshot.value.members[i].name == code
    ensures snapshot.Defined? ==>
              (r == Err(MemberNotFound)
               <==> forall i :: 0 <= i < |snapshot.value.members| ==> snapshot.value.members[i].name != code)
    ensures r.Ok? ==>
              snapshot.Defined?
              && var before := snapshot.value.members;
                 var k := MemberIndex(before, code);
                 0 <= k < |before| && before[k].name == code
                 && (forall j :: 0 <= j < k ==> before[j].name != code)
                 && r.value.teamname == snapshot.value.teamname
                 && r.value.isOpen == snapshot.value.isOpen
                 && |r.value.members| == |before|
                 && r.value.members[k] == Member(before[k].name, before[k].code, Toggled(status))
                 && forall i :: 0 <= i < |before| && i != k ==> r.value.members[i] == before[i]
  {
    match snapshot
    case Undefined => Err(TeamDocumentMissing)
    case Defined(team) =>
      var k := MemberIndex(team.members, code);
      if k < 0 then Err(MemberNotFound)
      else
        var m := team.members[k];
        Ok(Teams(team.teamname, team.members[k := Member(m.name, m.code, Toggled(status))], team.isOpen))
  }

  /** The transaction body as the component runs it: copy the members,
      overwrite the found one in place, and write the team back. */
  method SetMemberStatus(snapshot: Maybe<Teams>, status: string, code: string)
    returns (r: Result<Teams, StatusError>)
    ensures r == StatusUpdate(snapshot, status, code)
  {
    if snapshot.Undefined? {
      return Err(TeamDocumentMissing);
    }
    var teamData := snapshot.value;
    var members := new Member[|teamData.members|](i requires 0 <= i < |teamData.members| => teamData.members[i]);
    assert members[..] == teamData.members;
    var index := MemberIndex(members[..], code);
    if index < 0 {
      return Err(MemberNotFound);
    }
    var updateMember := members[index];
    members[index] := Member(updateMember.name, updateMember.code, Toggled(status));
    assert members[..] == teamData.members[index := members[index]];
    return Ok(Teams(teamData.teamname, members[..], teamData.isOpen));
  }

  /** The flip as seen by the store: on an error the transaction is
      abandoned (the error is only logged) and nothing changes. */
  function SetMemberStatusInStore(store: Store, teamName: string, status: string, code: string): (r: Store)
    ensures StatusUpdate(Snapshot(store.teams, teamName), status, code).Err? ==> r == store
    ensures StatusUpdate(Snapshot(store.teams, teamName), status, code).Ok? ==>
              r == store.(teams := store.teams[teamName := StatusUpdate(Snapshot(store.teams, teamName), status, code).value])
    ensures r.selection == store.selection && r.prizes == store.prizes && r.results == store.results
    ensures forall t :: t != teamName ==>
              (t in r.teams <==> t in store.teams)
              && (t in store.teams ==> r.teams[t] == store.teams[t])
  {
    match StatusUpdate(Snapshot(store.teams, teamName), status, code)
    case Ok(team) => store.(teams := store.teams[teamName := team])
    case Err(_) => store
  }

  /** The flipped team is the old team with one member replaced. */
  lemma StatusUpdateIsReplacement(team: Teams, status: string, code: string)
    requires StatusUpdate(Defined(team), status, code).Ok?
    ensures var k := MemberIndex(team.members, code);
            var m := team.members[k];
            StatusUpdate(Defined(team), status, code).value
            == team.(members := team.members[k := Member(m.name, m.code, Toggled(status))])
  {
  }

  /** Flipping with the displayed status and then flipping back restores
      the team document, for a member whose stored status is "present" or
      "absent". */
  lemma FlipTwiceRestores(team: Teams, code: string)
    requires 0 <= MemberIndex(team.members, code)
    requires team.members[MemberIndex(team.members, code)].status in {"present", "absent"}
    ensures var s := team.members[MemberIndex(team.members, code)].status;
            var once := StatusUpdate(Defined(team), s, code);
            once.Ok? && StatusUpdate(Defined(once.value), Toggled(s), code) == Ok(team)
  {
    var k := MemberIndex(team.members, code);
    var s := team.members[k].status;
    var once := StatusUpdate(Defined(team), s, code).value;
    assert MemberIndex(once.members, code) == k by {
      assert forall j :: 0 <= j < k ==> once.members[j] == team.members[j];
      assert once.members[k].name == code;
    }
    var twice := StatusUpdate(Defined(once), Toggled(s), code).value;
    assert twice.members == team.members;
  }

  /** The flip called with the member's displayed status moves them into or
      out of the absent count by one, and leaves the number of pending
      members as it was. */
  lemma FlipCounts(team: Teams, options: seq<Option>, code: string)
    requires 0 <= MemberIndex(team.members, code)
    ensures var k := MemberIndex(team.members, code);
            var s := team.members[k].status;
            var after := StatusUpdate(Defined(team), s, code).value.members;
            |Pending(after, options)| == |Pending(team.members, options)|
            && (s == "present" ==> AbsentMembersCount(after) == AbsentMembersCount(team.members) + 1)
            && (s == "absent" ==> AbsentMembersCount(after) + 1 == AbsentMembersCount(team.members))
  {
    var k := MemberIndex(team.members, code);
    var m := team.members[k];
    var y := Member(m.name, m.code, Toggled(m.status));
    StatusUpdateIsReplacement(team, m.status, code);
    FilterUpdateCount(team.members, k, y, (x: Member) => !NameTaken(options, x.name));
    FilterUpdateCount(team.members, k, y, (x: Member) => x.status == "absent");
  }

  // ---------------------------------------------------------------------
  // Opening and resetting

  /** `openRaffle`: rewrites the team document with the members read (none
      when it did not exist), the component's team name and `isOpen` set. */
  function OpenRaffle(store: Store, teamName: string): (r: Store)
    ensures teamName in r.teams
    ensures r.teams[teamName] == Teams(teamName, TeamMembersOf(store, teamName).0, true)
    ensures forall t :: t != teamName ==> (t in r.teams <==> t in store.teams)
    ensures forall t :: t != teamName && t in store.teams ==> r.teams[t] == store.teams[t]
    ensures r.selection == store.selection && r.prizes == store.prizes && r.results == store.results
  {
    var (members, _) := TeamMembersOf(store, teamName);
    store.(teams := store.teams[teamName := Teams(teamName, members, true)])
  }

  /** Opening twice is opening once, and opening keeps the roster, so the
      pending list is what it was. */
  lemma OpenRaffleIdempotent(store: Store, teamName: string)
    ensures OpenRaffle(OpenRaffle(store, teamName), teamName) == OpenRaffle(store, teamName)
    ensures Pending(TeamMembersOf(OpenRaffle(store, teamName), teamName).0, TeamOptionsOf(store, teamName))
         == Pending(TeamMembersOf(store, teamName).0, TeamOptionsOf(store, teamName))
  {
  }

  datatype ResetError = SelectionSeedMissing | TeamSeedMissing

  /** The store after a reset and the write that failed, if any. */
  datatype ResetOutcome = ResetOutcome(store: Store, failed: Maybe<ResetError>)

  function SeedSelection(seeds: seq<TeamOptions>, teamName: string): Maybe<TeamOptions> {
    Find(seeds, (o: TeamOptions) => o.teamname == teamName)
  }

  function SeedTeam(seeds: seq<Teams>, teamName: string): Maybe<Teams> {
    Find(seeds, (o: Teams) => o.teamname == teamName)
  }

  /** `resetClicked`: three independent writes — the team's seed selection,
      its seed team document, and the deletion of its results. A write of an
      `undefined` seed is rejected by the store and ends the reset, so a
      missing team seed leaves the selection already overwritten. */
  function ResetClicked(store: Store, teamName: string, selectionSeeds: seq<TeamOptions>, teamSeeds: seq<Teams>)
    : (r: ResetOutcome)
    ensures r.failed == Defined(SelectionSeedMissing) <==> SeedSelection(selectionSeeds, teamName).Undefined?
    ensures r.failed == Defined(SelectionSeedMissing) ==> r.store == store
    ensures r.failed == Defined(TeamSeedMissing) ==>
              r.store == store.(selection := store.selection[teamName := SeedSelection(selectionSeeds, teamName).value])
    ensures r.failed.Undefined? <==>
              SeedSelection(selectionSeeds, teamName).Defined? && SeedTeam(teamSeeds, teamName).Defined?
    ensures r.failed.Undefined? ==>
              r.store == Store(store.selection[teamName := SeedSelection(selectionSeeds, teamName).value],
                               store.teams[teamName := SeedTeam(teamSeeds, teamName).value],
                               store.prizes,
                               store.results - {teamName})
  {
    match SeedSelection(selectionSeeds, teamName)
    case Undefined => ResetOutcome(store, Defined(SelectionSeedMissing))
    case Defined(resetSelection) =>
      var written := store.(selection := store.selection[teamName := resetSelection]);
      match SeedTeam(teamSeeds, teamName)
      case Undefined => ResetOutcome(written, Defined(TeamSeedMissing))
      case Defined(resetTeam) =>
        ResetOutcome(written.(teams := written.teams[teamName := resetTeam],
                              results := written.results - {teamName}), Undefined)
  }

  /** A seed the way a team starts: every number free, every member present,
      the raffle closed. */
  predicate FreshSeeds(selection: TeamOptions, team: Teams) {
    (forall i :: 0 <= i < |selection.options| ==> selection.options[i].value == "")
    && (forall i :: 0 <= i < |team.members| ==> team.members[i].status == "present")
    && !team.isOpen
  }

  /** After a complete reset from fresh seeds no number is claimed, nobody
      is absent, the raffle is closed and the team has no results, and
      other teams are untouched. */
  lemma ResetRestoresInitialState(store: Store, teamName: string, selectionSeeds: seq<TeamOptions>, teamSeeds: seq<Teams>)
    requires SeedSelection(selectionSeeds, teamName).Defined? && SeedTeam(teamSeeds, teamName).Defined?
    requires FreshSeeds(SeedSelection(selectionSeeds, teamName).value, SeedTeam(teamSeeds, teamName).value)
    ensures var r := ResetClicked(store, teamName, selectionSeeds, teamSeeds).store;
            DoneMembersCount(TeamOptionsOf(r, teamName)) == 0
            && AbsentMembersCount(TeamMembersOf(r, teamName).0) == 0
            && !TeamMembersOf(r, teamName).1
            && teamName !in r.results
            && (forall t :: t != teamName && t in store.teams ==> t in r.teams && r.teams[t] == store.teams[t])
  {
    var sel := SeedSelection(selectionSeeds, teamName).value;
    var team := SeedTeam(teamSeeds, teamName).value;
    var r := ResetClicked(store, teamName, selectionSeeds, teamSeeds).store;
    assert TeamOptionsOf(r, teamName) == sel.options;
    assert TeamMembersOf(r, teamName) == (team.members, team.isOpen);
    FilterEmpty(sel.options, (o: Option) => o.value != "");
    FilterEmpty(team.members, (m: Member) => m.status == "absent");
  }

  /** Resetting again after a complete reset changes nothing: each of the
      three writes is an overwrite or a delete. */
  lemma ResetIdempotent(store: Store, teamName: string, selectionSeeds: seq<TeamOptions>, teamSeeds: seq<Teams>)
    requires ResetClicked(store, teamName, selectionSeeds, teamSeeds).failed.Undefined?
    ensures var r := ResetClicked(store, teamName, selectionSeeds, teamSeeds).store;
            ResetClicked(r, teamName, selectionSeeds, teamSeeds) == ResetOutcome(r, Undefined)
  {
    var r := ResetClicked(store, teamName, selectionSeeds, teamSeeds).store;
    var sel := SeedSelection(selectionSeeds, teamName).value;
    var team := SeedTeam(teamSeeds, teamName).value;
    assert r.selection[teamName := sel] == r.selection;
    assert r.teams[teamName := team] == r.teams;
    assert r.results - {teamName} == r.results;
  }
}
