/** The quiz-details page: the participants and leaderboard tabs built from the leaderboard
    endpoint's list, and the tab switch that decides which loader runs.

    The page has no state of its own beyond the document; each loader turns the settled
    request into the content of its tab, modelled here as a `Panel` value. */
module QuizDetails {
  import opened Wrappers
  import opened Text
  import opened HtmlEscape

  /** One entry of the leaderboard endpoint's list, in the order the service sends it. */
  datatype Entry = Entry(name: string, rollNo: string, score: int)

  /** The settled list request: it failed (or its reply was not ok), or it gave a body that is
      `null` (`None`) or a list. */
  datatype ListReply = ListFailed | ListLoaded(data: Option<seq<Entry>>)

  /** A rendered row: the rank before the name (empty on the participants tab), the escaped
      name, the escaped roll number on the participants tab, and the score shown as "pts". */
  datatype Row = Row(rank: string, name: string, rollNo: Option<string>, score: int)

  /** The content of a tab: a one-line notice, or one row per entry. */
  datatype Panel = Notice(text: string) | Rows(rows: seq<Row>)

  const NoParticipants := "No participants yet"
  const NoResults := "No results yet"
  const ParticipantsFailed := "Failed to load participants"
  const LeaderboardFailed := "Failed to load leaderboard"

  /** The rank label for position `i` (from 0): gold, silver and bronze medals for the first
      three, then the rank followed by a dot. */
  function Medal(i: nat): (s: string)
    ensures i < 3 ==> |s| == 1
    ensures i == 0 ==> s == "\U{1F947}"
    ensures i == 1 ==> s == "\U{1F948}"
    ensures i == 2 ==> s == "\U{1F949}"
    ensures i >= 3 ==> s == NatToString(i + 1) + "."
  {
    if i == 0 then "\U{1F947}"
    else if i == 1 then "\U{1F948}"
    else if i == 2 then "\U{1F949}"
    else NatToString(i + 1) + "."
  }

  /** Distinct positions get distinct labels. */
  lemma MedalInjective(i: nat, j: nat)
    ensures Medal(i) == Medal(j) ==> i == j
  {
    if Medal(i) == Medal(j) {
      if i >= 3 && j >= 3 {
        var a, b := NatToString(i + 1), NatToString(j + 1);
        assert a == (a + ".")[..|a|] && b == (b + ".")[..|b|];
        NatToStringInjective(i + 1, j + 1);
      }
    }
  }

  /** The leaderboard row for the entry at position `i`. */
  function LeaderRow(i: nat, e: Entry): Row {
    Row(Medal(i), EscapeHtml(e.name), None, e.score)
  }

  /** The participants row for an entry. */
  function ParticipantRow(e: Entry): Row {
    Row("", EscapeHtml(e.name), Some(EscapeHtml(e.rollNo)), e.score)
  }

  /** `data.map((u, i) => ...)` for the leaderboard, with positions counted from `start`. */
  function LeaderRows(data: seq<Entry>, start: nat): (rows: seq<Row>)
    ensures |rows| == |data|
    ensures forall i :: 0 <= i < |data| ==> rows[i] == LeaderRow(start + i, data[i])
    decreases |data|
  {
    if data == [] then [] else [LeaderRow(start, data[0])] + LeaderRows(data[1..], start + 1)
  }

  /** `data.map(u => ...)` for the participants. */
  function ParticipantRows(data: seq<Entry>): (rows: seq<Row>)
    ensures |rows| == |data|
    ensures forall i :: 0 <= i < |data| ==> rows[i] == ParticipantRow(data[i])
  {
    if data == [] then [] else [ParticipantRow(data[0])] + ParticipantRows(data[1..])
  }

  /** `loadLeaderboard` once its request has settled. */
  function Leaderboard(reply: ListReply): Panel {
    match reply
    case ListFailed => Notice(LeaderboardFailed)
    case ListLoaded(data) =>
      if data.None? || |data.value| == 0 then Notice(NoResults) else Rows(LeaderRows(data.value, 0))
  }

  /** `loadParticipants` once its request has settled. */
  function Participants(reply: ListReply): Panel {
    match reply
    case ListFailed => Notice(ParticipantsFailed)
    case ListLoaded(data) =>
      if data.None? || |data.value| == 0 then Notice(NoParticipants) else Rows(ParticipantRows(data.value))
  }

  /** A missing or empty list gives only the placeholder; otherwise there is one row per entry,
      in the order received, carrying that entry's medal or rank, escaped name and score. */
  lemma LeaderboardShape(reply: ListReply)
    requires reply.ListLoaded?
    ensures Leaderboard(reply).Notice? <==> reply.data.None? || reply.data.value == []
    ensures Leaderboard(reply).Notice? ==> Leaderboard(reply).text == NoResults
    ensures Leaderboard(reply).Rows? ==>
              var rows, data := Leaderboard(reply).rows, reply.data.value;
              && |rows| == |data|
              && forall i :: 0 <= i < |data| ==>
                   && rows[i].rank == Medal(i) && rows[i].name == EscapeHtml(data[i].name)
                   && rows[i].score == data[i].score && rows[i].rollNo.None?
  {
  }

  /** The same on the participants tab, with the escaped roll number beside each name. */
  lemma ParticipantsShape(reply: ListReply)
    requires reply.ListLoaded?
    ensures Participants(reply).Notice? <==> reply.data.None? || reply.data.value == []
    ensures Participants(reply).Notice? ==> Participants(reply).text == NoParticipants
    ensures Participants(reply).Rows? ==>
              var rows, data := Participants(reply).rows, reply.data.value;
              && |rows| == |data|
              && forall i :: 0 <= i < |data| ==>
                   && rows[i].name == EscapeHtml(data[i].name)
                   && rows[i].rollNo == Some(EscapeHtml(data[i].rollNo))
                   && rows[i].score == data[i].score
  {
  }

  /** The names in the rows give back the names received, so no two participants are shown
      under the same name unless they sent the same one, and no name can inject markup. */
  lemma RowNamesFaithful(data: seq<Entry>, i: nat)
    requires i < |data|
    ensures Unescape(LeaderRows(data, 0)[i].name) == data[i].name
    ensures Unescape(ParticipantRows(data)[i].name) == data[i].name
    ensures forall k :: 0 <= k < |LeaderRows(data, 0)[i].name| ==> LeaderRows(data, 0)[i].name[k] != '<'
  {
    UnescapeEscapeHtml(data[i].name);
  }

  /** The rank labels of one leaderboard are all different. */
  lemma LeaderLabelsDistinct(data: seq<Entry>, i: nat, j: nat)
    requires i < |data| && j < |data| && i != j
    ensures LeaderRows(data, 0)[i].rank != LeaderRows(data, 0)[j].rank
  {
    MedalInjective(i, j);
  }

  // ---------------------------------------------------------------------------------------
  // Tabs

  /** The loaders a tab switch can start. */
  datatype Loader = LoadParticipants | LoadLeaderboard | LoadSummary

  /** The tab's element id for each loader. */
  function TabName(l: Loader): string {
    match l
    case LoadParticipants => "participants"
    case LoadLeaderboard => "leaderboard"
    case LoadSummary => "summary"
  }

  /** `switchTab(tabName, btn)`: `hasTab` says whether the document has an element with that
      id (without one the call throws before any loader runs); then the loader named by the
      tab, if any, runs. */
  function SwitchTab(tabName: string, hasTab: bool): (r: Option<Loader>) {
    if !hasTab then None
    else if tabName == "participants" then Some(LoadParticipants)
    else if tabName == "leaderboard" then Some(LoadLeaderboard)
    else if tabName == "summary" then Some(LoadSummary)
    else None
  }

  /** Switching to a loader's tab runs exactly that loader, and a loader runs only for its own
      tab name; any other name runs none. */
  lemma SwitchTabDispatch(tabName: string, hasTab: bool, l: Loader)
    ensures SwitchTab(TabName(l), true) == Some(l)
    ensures SwitchTab(tabName, hasTab) == Some(l) ==> tabName == TabName(l) && hasTab
    ensures tabName !in {"participants", "leaderboard", "summary"} ==> SwitchTab(tabName, hasTab).None?
  {
  }
}
