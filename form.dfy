/** The member's form component: who the member is, which numbers are
    free, the claim transaction, and which view is shown. */
module Form {
  import opened Interfaces
  import opened Seqs
  import Report

  // ---------------------------------------------------------------------
  // Component state and the derivations made when the form loads

  /** The component's state variables. */
  datatype FormState = FormState(
    teamName: string,
    loading: bool,
    showError: bool,
    memberName: string,
    options: seq<Option>,
    chosenOption: Maybe<Option>,
    chosenNumber: Maybe<string>,
    isOpen: bool)

  function InitialState(): FormState {
    FormState("", true, false, "", [], Undefined, Undefined, false)
  }

  /** `members.find(m => m.code === code)?.name ?? ""`. */
  function MemberName(members: seq<Member>, code: string): (name: string)
    ensures (forall i :: 0 <= i < |members| ==> members[i].code != code) ==> name == ""
    ensures forall i :: 0 <= i < |members| && members[i].code == code
                        && (forall j :: 0 <= j < i ==> members[j].code != code)
                        ==> name == members[i].name
  {
    match Find(members, (m: Member) => m.code == code)
    case Undefined => ""
    case Defined(m) => m.name
  }

  /** The numbers whose value is "", in their original order. */
  function FreeOptions(options: seq<Option>): (r: seq<Option>)
    ensures forall i :: 0 <= i < |r| ==> r[i].value == "" && r[i] in options
  {
    var r := Filter(options, (o: Option) => o.value == "");
    assert forall i :: 0 <= i < |r| ==> r[i] in r;
    r
  }

  /** `options.find(o => o.value === name)?.label`. */
  function ChosenLabel(options: seq<Option>, name: string): (r: Maybe<string>)
    ensures r.Undefined? <==> forall i :: 0 <= i < |options| ==> options[i].value != name
    ensures forall i :: 0 <= i < |options| && options[i].value == name
                        && (forall j :: 0 <= j < i ==> options[j].value != name)
                        ==> r == Defined(options[i].lbl)
  {
    match Find(options, (o: Option) => o.value == name)
    case Undefined => Undefined
    case Defined(o) => Defined(o.lbl)
  }

  /** `fetchData`: read the team and the selection (missing documents read
      as their defaults) and derive the member's name, the free numbers and
      the number the member already holds. */
  function FetchData(state: FormState, team: string, code: string, store: Store): (r: FormState)
    ensures r.teamName == team && !r.loading
    ensures r.isOpen == TeamMembersOf(store, team).1
    ensures r.memberName == MemberName(TeamMembersOf(store, team).0, code)
    ensures r.options == FreeOptions(TeamOptionsOf(store, team))
    ensures forall i :: 0 <= i < |r.options| ==> r.options[i].value == ""
    ensures r.chosenNumber == ChosenLabel(TeamOptionsOf(store, team), r.memberName)
    ensures r.chosenNumber.Defined? <==>
              exists i :: 0 <= i < |TeamOptionsOf(store, team)| && TeamOptionsOf(store, team)[i].value == r.memberName
    ensures r.showError == state.showError && r.chosenOption == state.chosenOption
  {
    var (members, isOpen) := TeamMembersOf(store, team);
    var options := TeamOptionsOf(store, team);
    var name := MemberName(members, code);
    state.(teamName := team, loading := false, isOpen := isOpen, memberName := name,
           options := FreeOptions(options), chosenNumber := ChosenLabel(options, name))
  }

  /** The listener on the member's team document: a modified document sets
      the open flag, and nothing else. */
  function TeamDocumentModified(state: FormState, doc: Teams): (r: FormState)
    ensures r.isOpen == doc.isOpen
    ensures r.(isOpen := state.isOpen) == state
  {
    state.(isOpen := doc.isOpen)
  }

  /** `userNotFound`. */
  predicate UserNotFound(state: FormState) {
    state.memberName == ""
  }

  /** The free list holds every free number as often as the selection does,
      and nothing else, in the selection's order. */
  lemma FreeOptionsExactly(options: seq<Option>, k: nat)
    requires k <= |options|
    ensures forall o :: multiset(FreeOptions(options))[o] == if o.value == "" then multiset(options)[o] else 0
    ensures FreeOptions(options) == FreeOptions(options[..k]) + FreeOptions(options[k..])
  {
    FilterMultiset(options, (o: Option) => o.value == "");
    FilterSplit(options, k, (o: Option) => o.value == "");
  }

  /** The user is "not found" exactly when no member has the code, or the
      first member that has it has an empty name. */
  lemma UserNotFoundMeaning(state: FormState, team: string, code: string, store: Store)
    ensures var members := TeamMembersOf(store, team).0;
            UserNotFound(FetchData(state, team, code, store))
            <==> (forall i :: 0 <= i < |members| ==> members[i].code != code)
                 || members[FindIndex(members, (m: Member) => m.code == code)].name == ""
  {
  }

  // ---------------------------------------------------------------------
  // The claim

  /** `checkOptionAvailable`: the first number with this label exists and
      is free. */
  function CheckOptionAvailable(number: string, teamOptions: seq<Option>): (r: bool)
    ensures r <==> exists i :: 0 <= i < |teamOptions| && teamOptions[i].lbl == number
                              && teamOptions[i].value == ""
                              && forall j :: 0 <= j < i ==> teamOptions[j].lbl != number
    ensures (forall i :: 0 <= i < |teamOptions| ==> teamOptions[i].lbl != number) ==> !r
  {
    match Find(teamOptions, (o: Option) => o.lbl == number)
    case Undefined => false
    case Defined(o) => o.value == ""
  }

  /** `options.findIndex(o => o.label == label)`. */
  function LabelIndex(options: seq<Option>, number: string): int {
    FindIndex(options, (o: Option) => o.lbl == number)
  }

  /** What aborts the claim transaction. */
  datatype ClaimError = SelectionMissing | OptionNotAvailable

  /** The claim transaction on a snapshot of the selection document: the
      document written back, or the error thrown before any write. */
  function Claim(snapshot: Maybe<TeamOptions>, teamName: string, number: string, memberName: string)
    : (r: Result<TeamOptions, ClaimError>)
    ensures r == Err(SelectionMissing) <==> snapshot.Undefined?
    ensures r.Ok? <==> snapshot.Defined? && CheckOptionAvailable(number, snapshot.value.options)
    ensures snapshot.Defined? ==>
              (r == Err(OptionNotAvailable) <==> !CheckOptionAvailable(number, snapshot.value.options))
    ensures r.Ok? ==>
              snapshot.Defined?
              && var before := snapshot.value.options;
                 var k := LabelIndex(before, number);
                 0 <= k < |before| && before[k].lbl == number && before[k].value == ""
                 && (forall j :: 0 <= j < k ==> before[j].lbl != number)
                 && r.value.teamname == teamName
                 && |r.value.options| == |before|
                 && r.value.options[k] == Option(number, memberName)
                 && forall i :: 0 <= i < |before| && i != k ==> r.value.options[i] == before[i]
  {
    match snapshot
    case Undefined => Err(SelectionMissing)
    case Defined(doc) =>
      if CheckOptionAvailable(number, doc.options) then
        var k := LabelIndex(doc.options, number);
        Ok(TeamOptions(teamName, doc.options[k := Option(number, memberName)]))
      else Err(OptionNotAvailable)
  }

  /** The transaction body as the component runs it: copy the options,
      find the chosen number and overwrite it in place. */
  method ClaimTransaction(snapshot: Maybe<TeamOptions>, teamName: string, chosenOption: Option, memberName: string)
    returns (r: Result<TeamOptions, ClaimError>)
    ensures r == Claim(snapshot, teamName, chosenOption.lbl, memberName)
  {
    if snapshot.Undefined? {
      return Err(SelectionMissing);
    }
    var doc := snapshot.value;
    var options := new Option[|doc.options|](i requires 0 <= i < |doc.options| => doc.options[i]);
    assert options[..] == doc.options;
    var isAvailable := CheckOptionAvailable(chosenOption.lbl, options[..]);
    if isAvailable {
      var index := LabelIndex(options[..], chosenOption.lbl);
      options[index] := Option(chosenOption.lbl, memberName);
      assert options[..] == doc.options[index := Option(chosenOption.lbl, memberName)];
      return Ok(TeamOptions(teamName, options[..]));
    } else {
      return Err(OptionNotAvailable);
    }
  }

  /** A claim never overwrites a number somebody already holds, keeps every
      label, and (for a non-empty name) takes exactly one free number. */
  lemma ClaimKeepsOthers(doc: TeamOptions, teamName: string, number: string, memberName: string)
    requires Claim(Defined(doc), teamName, number, memberName).Ok?
    ensures var after := Claim(Defined(doc), teamName, number, memberName).value.options;
            (forall i :: 0 <= i < |doc.options| && doc.options[i].value != "" ==> after[i] == doc.options[i])
            && (forall i :: 0 <= i < |doc.options| ==> after[i].lbl == doc.options[i].lbl)
            && (memberName != "" ==> |FreeOptions(after)| + 1 == |FreeOptions(doc.options)|)
  {
    var k := LabelIndex(doc.options, number);
    var after := Claim(Defined(doc), teamName, number, memberName).value.options;
    assert after == doc.options[k := Option(number, memberName)];
    FilterUpdateCount(doc.options, k, Option(number, memberName), (o: Option) => o.value == "");
  }

  /** Once claimed under a non-empty name, a number is no longer available:
      a second claim on it fails and writes nothing. */
  lemma ClaimThenUnavailable(doc: TeamOptions, teamName: string, number: string, first: string, second: string)
    requires first != ""
    requires Claim(Defined(doc), teamName, number, first).Ok?
    ensures var after := Claim(Defined(doc), teamName, number, first).value;
            Claim(Defined(after), teamName, number, second) == Err(OptionNotAvailable)
  {
    var k := LabelIndex(doc.options, number);
    var after := Claim(Defined(doc), teamName, number, first).value;
    assert after.options[k].value == first;
    assert forall j :: 0 <= j < k ==> after.options[j] == doc.options[j];
    assert LabelIndex(after.options, number) == k;
  }

  /** The transaction does not stop a member from holding two numbers: only
      the view keeps a member who already holds one away from the form. */
  lemma ClaimAllowsSecondNumber()
    ensures var doc := TeamOptions("t", [Option("1", ""), Option("2", "")]);
            var once := Claim(Defined(doc), "t", "1", "Ann");
            once == Ok(TeamOptions("t", [Option("1", "Ann"), Option("2", "")]))
            && Claim(Defined(once.value), "t", "2", "Ann")
               == Ok(TeamOptions("t", [Option("1", "Ann"), Option("2", "Ann")]))
  {
    var doc := TeamOptions("t", [Option("1", ""), Option("2", "")]);
    assert LabelIndex(doc.options, "1") == 0;
    assert CheckOptionAvailable("1", doc.options);
    var once := TeamOptions("t", [Option("1", "Ann"), Option("2", "")]);
    assert doc.options[0 := Option("1", "Ann")] == once.options;
    assert Claim(Defined(doc), "t", "1", "Ann") == Ok(once);
    assert once.options[0].lbl != "2";
    assert LabelIndex(once.options, "2") == 1;
    assert CheckOptionAvailable("2", once.options);
    assert once.options[1 := Option("2", "Ann")] == [Option("1", "Ann"), Option("2", "Ann")];
  }

  // ---------------------------------------------------------------------
  // Changing the selection and submitting

  /** `handleChange`: remember the chosen number and hide any error. */
  function HandleChange(state: FormState, selected: Option): (r: FormState)
    ensures r.chosenOption == Defined(selected) && !r.showError
    ensures r.(showError := state.showError, chosenOption := state.chosenOption) == state
  {
    state.(showError := false, chosenOption := Defined(selected))
  }

  /** `submitClicked`: without a chosen number nothing happens; otherwise
      the claim runs against the store's selection document. On success the
      store holds the written document and the member's number is recorded;
      on any error the store is unchanged, the component's own list is
      filtered to its free numbers and the error is shown. */
  function SubmitClicked(state: FormState, store: Store): (r: (FormState, Store))
    ensures state.chosenOption.Undefined? ==> r == (state, store)
    ensures r.0.teamName == state.teamName && r.0.loading == state.loading
            && r.0.memberName == state.memberName && r.0.isOpen == state.isOpen
            && r.0.chosenOption == state.chosenOption
    ensures r.1.teams == store.teams && r.1.prizes == store.prizes && r.1.results == store.results
    ensures forall t :: t != state.teamName ==>
              (t in r.1.selection <==> t in store.selection)
              && (t in store.selection ==> r.1.selection[t] == store.selection[t])
    ensures state.chosenOption.Defined? ==>
              var claim := Claim(Snapshot(store.selection, state.teamName), state.teamName,
                                 state.chosenOption.value.lbl, state.memberName);
              (r.0.showError <==> claim.Err?)
              && (claim.Ok? ==>
                    r.0.chosenNumber == Defined(state.chosenOption.value.lbl)
                    && r.0.options == state.options
                    && state.teamName in r.1.selection
                    && r.1.selection[state.teamName] == claim.value)
              && (claim.Err? ==>
                    r.1 == store
                    && r.0.options == FreeOptions(state.options)
                    && r.0.chosenNumber == state.chosenNumber)
  {
    match state.chosenOption
    case Undefined => (state, store)
    case Defined(chosen) =>
      match Claim(Snapshot(store.selection, state.teamName), state.teamName, chosen.lbl, state.memberName)
      case Ok(doc) =>
        (state.(chosenNumber := Defined(chosen.lbl), showError := false),
         store.(selection := store.selection[state.teamName := doc]))
      case Err(_) =>
        (state.(options := FreeOptions(state.options), showError := true), store)
  }

  /** Submitting with no number chosen changes neither the state nor the
      store. */
  lemma SubmitWithoutChoice(state: FormState, store: Store)
    requires state.chosenOption.Undefined?
    ensures SubmitClicked(state, store) == (state, store)
  {
  }

  /** A failed claim leaves the store alone and shows the error; the list
      offered afterwards is the component's own list filtered again, not a
      fresh read, so after a load (when that list is already all free) it is
      unchanged and still offers the number that was just taken. */
  lemma FailedClaimKeepsStaleList(state: FormState, store: Store)
    requires state.chosenOption.Defined?
    requires Claim(Snapshot(store.selection, state.teamName), state.teamName,
                   state.chosenOption.value.lbl, state.memberName).Err?
    requires forall i :: 0 <= i < |state.options| ==> state.options[i].value == ""
    ensures SubmitClicked(state, store).1 == store
    ensures SubmitClicked(state, store).0 == state.(showError := true)
  {
    FilterAll(state.options, (o: Option) => o.value == "");
  }

  // ---------------------------------------------------------------------
  // The view

  datatype View = Blank | UserNotFoundView | RaffleNotOpen | UserAlreadyChosen | SelectionForm

  /** The form's body: nothing while loading, then `Content`. */
  function ContentView(state: FormState): (r: View)
    ensures r == Blank <==> state.loading
  {
    if state.loading then Blank
    else if UserNotFound(state) then UserNotFoundView
    else if !state.isOpen then RaffleNotOpen
    else if state.chosenNumber.Defined? then UserAlreadyChosen
    else SelectionForm
  }

  /** Each view is shown exactly under its condition and those before it
      failing: not found, then not open, then already chosen, then the form. */
  lemma ContentPrecedence(state: FormState)
    requires !state.loading
    ensures ContentView(state) == UserNotFoundView <==> state.memberName == ""
    ensures ContentView(state) == RaffleNotOpen <==> state.memberName != "" && !state.isOpen
    ensures ContentView(state) == UserAlreadyChosen
            <==> state.memberName != "" && state.isOpen && state.chosenNumber.Defined?
    ensures ContentView(state) == SelectionForm
            <==> state.memberName != "" && state.isOpen && state.chosenNumber.Undefined?
  {
  }

  /** After loading, the selection form is offered only to a known member
      of an open raffle whose name no number carries in the store: the only
      guard against one member holding two numbers. */
  lemma SelectionFormGuard(team: string, code: string, store: Store)
    ensures var s := FetchData(InitialState(), team, code, store);
            ContentView(s) == SelectionForm ==>
              s.memberName != "" && TeamMembersOf(store, team).1
              && forall i :: 0 <= i < |TeamOptionsOf(store, team)| ==>
                   TeamOptionsOf(store, team)[i].value != s.memberName
  {
  }

  /** A successful claim from the selection form moves the member to the
      "already chosen" view, with the claimed number recorded, and the store
      now gives that number the member's name. */
  lemma SubmitSuccessShowsChosen(state: FormState, store: Store)
    requires ContentView(state) == SelectionForm && state.chosenOption.Defined?
    requires Claim(Snapshot(store.selection, state.teamName), state.teamName,
                   state.chosenOption.value.lbl, state.memberName).Ok?
    ensures var (s, st) := SubmitClicked(state, store);
            var number := state.chosenOption.value.lbl;
            ContentView(s) == UserAlreadyChosen && s.chosenNumber == Defined(number)
            && state.teamName in st.selection
            && ChosenLabel(st.selection[state.teamName].options, state.memberName).Defined?
  {
    var number := state.chosenOption.value.lbl;
    var doc := Claim(Snapshot(store.selection, state.teamName), state.teamName, number, state.memberName).value;
    var k := LabelIndex(store.selection[state.teamName].options, number);
    assert doc.options[k].value == state.memberName;
  }

  /** The member's whole path through a loaded selection form: choosing a
      free number and submitting it records that number, shows "already
      chosen", and the store now gives the number the member's name. */
  lemma ChooseThenSubmit(state: FormState, store: Store, selected: Option)
    requires ContentView(state) == SelectionForm
    requires state.teamName in store.selection
    requires CheckOptionAvailable(selected.lbl, store.selection[state.teamName].options)
    ensures var (s, st) := SubmitClicked(HandleChange(state, selected), store);
            var k := LabelIndex(store.selection[state.teamName].options, selected.lbl);
            ContentView(s) == UserAlreadyChosen && s.chosenNumber == Defined(selected.lbl) && !s.showError
            && 0 <= k < |st.selection[state.teamName].options|
            && st.selection[state.teamName].options[k] == Option(selected.lbl, state.memberName)
  {
    var chosen := HandleChange(state, selected);
    assert ContentView(chosen) == SelectionForm;
    SubmitSuccessShowsChosen(chosen, store);
  }

  /** Two members submit the same free number one after the other (the
      store serialises their transactions): the first gets it, the second
      sees the error, and the store keeps the first member's claim. */
  lemma RacingClaims(store: Store, first: FormState, second: FormState)
    requires first.teamName == second.teamName && first.teamName in store.selection
    requires first.chosenOption.Defined? && second.chosenOption.Defined?
    requires first.chosenOption.value.lbl == second.chosenOption.value.lbl
    requires first.memberName != ""
    requires CheckOptionAvailable(first.chosenOption.value.lbl, store.selection[first.teamName].options)
    ensures var (s1, st1) := SubmitClicked(first, store);
            var (s2, st2) := SubmitClicked(second, st1);
            s1.chosenNumber == Defined(first.chosenOption.value.lbl) && !s1.showError
            && s2.showError && s2.chosenNumber == second.chosenNumber
            && st2 == st1
            && st1.selection[first.teamName]
               == Claim(Defined(store.selection[first.teamName]), first.teamName,
                        first.chosenOption.value.lbl, first.memberName).value
  {
    var number := first.chosenOption.value.lbl;
    var doc := store.selection[first.teamName];
    var claimed := Claim(Defined(doc), first.teamName, number, first.memberName);
    ClaimThenUnavailable(doc, first.teamName, number, first.memberName, second.memberName);
  }

  // ---------------------------------------------------------------------
  // The form and the facilitator's report

  /** The form says "already chosen" exactly when the report counts the
      member's name as taken, so the report's pending list names the members
      the form still offers a number to. */
  lemma ChosenNumberMatchesReport(team: string, code: string, store: Store)
    ensures var s := FetchData(InitialState(), team, code, store);
            s.chosenNumber.Defined? <==> Report.NameTaken(TeamOptionsOf(store, team), s.memberName)
  {
  }

  /** Once the facilitator opens the raffle, a known member with a non-empty
      name who holds no number is shown the selection form. */
  lemma OpenedRaffleOffersForm(store: Store, team: string, code: string)
    requires MemberName(TeamMembersOf(store, team).0, code) != ""
    requires forall i :: 0 <= i < |TeamOptionsOf(store, team)| ==>
               TeamOptionsOf(store, team)[i].value != MemberName(TeamMembersOf(store, team).0, code)
    ensures ContentView(FetchData(InitialState(), team, code, Report.OpenRaffle(store, team))) == SelectionForm
  {
    var afterOpen := Report.OpenRaffle(store, team);
    assert TeamMembersOf(afterOpen, team) == (TeamMembersOf(store, team).0, true);
    assert TeamOptionsOf(afterOpen, team) == TeamOptionsOf(store, team);
  }
}
