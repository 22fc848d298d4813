/** The records the raffle keeps in its document store, one datatype per
    record shape, plus JavaScript's `undefined` and the error results of the
    store transactions. */
module Interfaces {

  /** One raffle number of a team: `lbl` (the stored field `label`, a reserved word here) is the number shown,
      `value` is the name of the member who claimed it, or "" while free. */
  datatype Option = Option(lbl: string, value: string)

  /** A team member; `status` is "present" or "absent" in practice, but the
      store holds a plain string. */
  datatype Member = Member(name: string, code: string, status: string)

  /** The `teams` document of one team. */
  datatype Teams = Teams(teamname: string, members: seq<Member>, isOpen: bool)

  /** The `selection` document of one team: its raffle numbers. */
  datatype TeamOptions = TeamOptions(teamname: string, options: seq<Option>)

  /** The `prizes` document of one team. */
  datatype Prizes = Prizes(teamname: string, prizes: seq<int>)

  /** One line of the raffle outcome stored in the `results` document. */
  datatype RaffleResult = RaffleResult(name: string, option: string, prize: int)

  /** A JavaScript value that may be `undefined` (a missing array element,
      a `find` without a hit, a document that does not exist). */
  datatype Maybe<T> = Undefined | Defined(value: T)

  /** The outcome of an operation that may throw. */
  datatype Result<T, E> = Ok(value: T) | Err(error: E)

  /** The status a member is given when the facilitator flips it: the
      status shown on the button decides, not the stored one. */
  function Toggled(status: string): (r: string)
    ensures r == "present" || r == "absent"
    ensures r == "absent" <==> status == "present"
  {
    if status == "present" then "absent" else "present"
  }

  /** The document store, one collection per record kind, keyed by team
      name. Only the documents themselves are modelled; reads, writes and
      transactions are the operations of the components below. */
  datatype Store = Store(
    selection: map<string, TeamOptions>,
    teams: map<string, Teams>,
    prizes: map<string, Prizes>,
    results: map<string, seq<RaffleResult>>)

  /** A document read inside a transaction: `undefined` when it does not exist. */
  function Snapshot<T>(collection: map<string, T>, key: string): Maybe<T>
  {
    if key in collection then Defined(collection[key]) else Undefined
  }

  /** `getTeamMembers`: the members and the open flag, or no members and a
      closed raffle when the team document does not exist. */
  function TeamMembersOf(store: Store, team: string): (seq<Member>, bool)
  {
    if team in store.teams then (store.teams[team].members, store.teams[team].isOpen) else ([], false)
  }

  /** `getTeamOptions`: the raffle numbers, or none when the selection
      document does not exist. */
  function TeamOptionsOf(store: Store, team: string): seq<Option>
  {
    if team in store.selection then store.selection[team].options else []
  }

  /** `getTeamPrizes`: the prize list, or none when the prizes document does
      not exist. */
  function TeamPrizesOf(store: Store, team: string): seq<int>
  {
    if team in store.prizes then store.prizes[team].prizes else []
  }
}
