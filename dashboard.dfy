/**
 * The reading-club dashboard's data pipeline: the three sheets normalized at
 * load time, the club list behind the dropdown, the "Select All" resolution,
 * and what each callback derives from the current selection.
 */
module Dashboard {
  import opened Names
  import opened Tables

  /** Roster sheet: 'Number of males', 'Number of females' and 'Total'. */
  datatype RosterCells = RosterCells(males: nat, females: nat, total: nat)

  /** Yearly membership sheet: '2023 Total Membership' and '2024 Total Membership'. */
  datatype MembershipCells = MembershipCells(total2023: nat, total2024: nat)

  /** Average reading session sheet: carried to the chart, never computed on. */
  datatype SessionCells = SessionCells(average2023: real, average2024: real)

  /** A roster column that the cards sum. */
  datatype Column = Males | Females | Total

  /** The three card values. */
  datatype Cards = Cards(males: nat, females: nat, total: nat)

  /** One slice of the gender pie chart. */
  datatype Slice = Slice(gender: string, count: nat)

  /** One dropdown entry: `caption` is the entry's 'label' key (`label` is a
      Dafny keyword). */
  datatype Choice = Choice(caption: string, value: string)

  /** The value of the "Select All" dropdown entry. */
  const SelectAll: string := "all"

  // -----------------------------------------------------------------------
  // Load-time normalization

  /** The alias pass applied to the membership and session sheets. */
  function AliasName(s: string): (r: string)
    ensures r == s || r in ClubNameMapping.Values
    ensures Alias(ClubNameMapping, r) == r
  {
    MappingHasNoChains();
    Alias(ClubNameMapping, s)
  }

  /** The name the membership and session sheets end up with. */
  function SheetName(s: string): (r: string)
    ensures |r| <= |AliasName(s)|
    ensures s in ClubNameMapping ==> !Contains(r)
  {
    if s in ClubNameMapping then
      CanonicalNamesClean(s);
      Normalize(ClubNameMapping, s)
    else
      Normalize(ClubNameMapping, s)
  }

  /** Rewrites the club-name column of the three loaded sheets in place: the
      alias pass on the membership and session sheets, then the strip pass on
      all three. */
  method Load(roster: array<Row<RosterCells>>, membership: array<Row<MembershipCells>>,
              sessions: array<Row<SessionCells>>)
    modifies roster, membership, sessions
    ensures roster[..] == Relabel(old(roster[..]), Strip)
    ensures membership[..] == Relabel(old(membership[..]), SheetName)
    ensures sessions[..] == Relabel(old(sessions[..]), SheetName)
  {
    ghost var membership0, sessions0 := membership[..], sessions[..];
    RelabelInPlace(membership, AliasName);
    RelabelInPlace(sessions, AliasName);
    RelabelInPlace(roster, Strip);
    RelabelInPlace(membership, Strip);
    RelabelInPlace(sessions, Strip);
    RelabelTwice(membership0, AliasName, Strip, SheetName);
    RelabelTwice(sessions0, AliasName, Strip, SheetName);
  }

  /** After loading, a membership or session row spelled with an alias key and
      a roster row spelled canonically carry the same club name. */
  lemma LoadedNamesAgree(k: string)
    requires k in ClubNameMapping
    ensures SheetName(k) == Strip(ClubNameMapping[k])
    ensures SheetName(ClubNameMapping[k]) == Strip(ClubNameMapping[k])
    ensures !Contains(SheetName(k))
  {
    MappingHasNoChains();
    VariantMeetsCanonical(ClubNameMapping, k);
    CanonicalNamesClean(k);
  }

  // -----------------------------------------------------------------------
  // The club list and the dropdown

  /** `all_clubs`: the distinct roster names, in order of first appearance. */
  function AllClubs(roster: seq<Row<RosterCells>>): (r: seq<string>)
    ensures forall c :: c in r <==> c in Clubs(roster)
    ensures forall i :: 0 <= i < |roster| ==> roster[i].club in r
    ensures forall c :: c in r ==> exists i :: 0 <= i < |roster| && roster[i].club == c
    ensures forall i, j :: 0 <= i < j < |r| ==> r[i] != r[j]
    ensures forall i, j :: 0 <= i < j < |r| ==>
      IndexOf(Clubs(roster), r[i]) < IndexOf(Clubs(roster), r[j])
  {
    var names := Clubs(roster);
    assert forall i :: 0 <= i < |roster| ==> names[i] in names;
    Unique(names)
  }

  function ClubChoices(clubs: seq<string>): (r: seq<Choice>)
    ensures |r| == |clubs|
    ensures forall i :: 0 <= i < |clubs| ==> r[i] == Choice(clubs[i], clubs[i])
  {
    if clubs == [] then [] else [Choice(clubs[0], clubs[0])] + ClubChoices(clubs[1..])
  }

  /** `dropdown_options`: the "Select All" entry, then one entry per club. */
  function DropdownOptions(clubs: seq<string>): (r: seq<Choice>)
    ensures |r| == |clubs| + 1
    ensures r[0] == Choice("Select All", SelectAll)
    ensures forall i :: 0 <= i < |clubs| ==> r[i + 1] == Choice(clubs[i], clubs[i])
  {
    [Choice("Select All", SelectAll)] + ClubChoices(clubs)
  }

  /** Every roster club is offered, by exactly one entry after the first. */
  lemma DropdownOffersEachClubOnce(roster: seq<Row<RosterCells>>)
    ensures forall k :: 0 <= k < |roster| ==>
      exists i :: 1 <= i < |DropdownOptions(AllClubs(roster))| &&
        DropdownOptions(AllClubs(roster))[i].value == roster[k].club
    ensures forall i, j :: 1 <= i < j < |DropdownOptions(AllClubs(roster))| ==>
      DropdownOptions(AllClubs(roster))[i].value != DropdownOptions(AllClubs(roster))[j].value
  {
    var clubs := AllClubs(roster);
    var r := DropdownOptions(clubs);
    forall k | 0 <= k < |roster|
      ensures exists i :: 1 <= i < |r| && r[i].value == roster[k].club
    {
      var n :| 0 <= n < |clubs| && clubs[n] == roster[k].club;
      assert r[n + 1].value == roster[k].club;
    }
    forall i, j | 1 <= i < j < |r| ensures r[i].value != r[j].value {
      assert r[i].value == clubs[i - 1] && r[j].value == clubs[j - 1];
    }
  }

  /** `update_dropdown`: a selection holding the "Select All" value becomes
      the whole club list; any other selection is kept. */
  function UpdateDropdown(selected: seq<string>, clubs: seq<string>): (r: seq<string>)
    ensures r == clubs || r == selected
    ensures SelectAll in r ==> SelectAll in clubs
  {
    if SelectAll in selected then clubs else selected
  }

  /** What the resolution promises: the club list exactly when "Select All"
      is chosen, alone or with other clubs, the selection unchanged otherwise,
      and never the sentinel itself unless a club bears its name. */
  lemma SelectAllResolves(selected: seq<string>, clubs: seq<string>)
    ensures SelectAll in selected ==> UpdateDropdown(selected, clubs) == clubs
    ensures SelectAll !in selected ==> UpdateDropdown(selected, clubs) == selected
    ensures SelectAll !in clubs ==> SelectAll !in UpdateDropdown(selected, clubs)
  {
  }

  /** Writing the resolved selection back to the dropdown changes nothing more. */
  lemma UpdateDropdownIdempotent(selected: seq<string>, clubs: seq<string>)
    ensures UpdateDropdown(UpdateDropdown(selected, clubs), clubs) == UpdateDropdown(selected, clubs)
  {
  }

  // -----------------------------------------------------------------------
  // Cards and the gender pie chart

  function Cell(c: RosterCells, col: Column): nat
  {
    match col
    case Males => c.males
    case Females => c.females
    case Total => c.total
  }

  /** `.sum()` of one roster column. */
  function ColumnSum(t: seq<Row<RosterCells>>, col: Column): (r: nat)
    ensures forall i :: 0 <= i < |t| ==> Cell(t[i].cells, col) <= r
  {
    if t == [] then 0 else Cell(t[0].cells, col) + ColumnSum(t[1..], col)
  }

  function Plus(a: Cards, b: Cards): Cards
  {
    Cards(a.males + b.males, a.females + b.females, a.total + b.total)
  }

  /** `update_cards`: each card sums its own column over the selected roster
      rows; the total is summed from the 'Total' column, not recomputed. */
  function UpdateCards(roster: seq<Row<RosterCells>>, selected: seq<string>): (r: Cards)
    ensures r.males <= ColumnSum(roster, Males)
    ensures r.females <= ColumnSum(roster, Females)
    ensures r.total <= ColumnSum(roster, Total)
  {
    var rows := Filter(roster, selected);
    FilterIsSubsequence(roster, selected);
    ColumnSumSubsequence(rows, roster, Males);
    ColumnSumSubsequence(rows, roster, Females);
    ColumnSumSubsequence(rows, roster, Total);
    Cards(ColumnSum(rows, Males), ColumnSum(rows, Females), ColumnSum(rows, Total))
  }

  /** `update_gender_pie_chart`: the two slices, males then females. */
  function UpdateGenderPie(roster: seq<Row<RosterCells>>, selected: seq<string>): (r: seq<Slice>)
    ensures |r| == 2 && r[0].gender == "Males" && r[1].gender == "Females"
    ensures r[0].count == UpdateCards(roster, selected).males
    ensures r[1].count == UpdateCards(roster, selected).females
  {
    var rows := Filter(roster, selected);
    [Slice("Males", ColumnSum(rows, Males)), Slice("Females", ColumnSum(rows, Females))]
  }

  lemma {:induction false} ColumnSumAppend(a: seq<Row<RosterCells>>, b: seq<Row<RosterCells>>, col: Column)
    ensures ColumnSum(a + b, col) == ColumnSum(a, col) + ColumnSum(b, col)
  {
    if a == [] {
      assert a + b == b;
    } else {
      assert (a + b)[1..] == a[1..] + b;
      ColumnSumAppend(a[1..], b, col);
    }
  }

  /** Dropping rows never raises a column sum. */
  lemma {:induction false} ColumnSumSubsequence(a: seq<Row<RosterCells>>, b: seq<Row<RosterCells>>, col: Column)
    requires IsSubsequence(a, b)
    ensures ColumnSum(a, col) <= ColumnSum(b, col)
    decreases |b|
  {
    if b != [] {
      if a != [] && a[0] == b[0] && IsSubsequence(a[1..], b[1..]) {
        ColumnSumSubsequence(a[1..], b[1..], col);
      } else {
        ColumnSumSubsequence(a, b[1..], col);
      }
    }
  }

  /** The cards of a roster are the sums of the cards of its parts. */
  lemma {:induction false} CardsAppend(a: seq<Row<RosterCells>>, b: seq<Row<RosterCells>>, selected: seq<string>)
    ensures UpdateCards(a + b, selected) == Plus(UpdateCards(a, selected), UpdateCards(b, selected))
  {
    CardsAppendByColumn(a, b, selected);
    PlusByField(UpdateCards(a + b, selected), UpdateCards(a, selected), UpdateCards(b, selected));
  }

  /** `CardsAppend`, card by card. */
  lemma {:induction false} CardsAppendByColumn(a: seq<Row<RosterCells>>, b: seq<Row<RosterCells>>, selected: seq<string>)
    ensures UpdateCards(a + b, selected).males == UpdateCards(a, selected).males + UpdateCards(b, selected).males
    ensures UpdateCards(a + b, selected).females == UpdateCards(a, selected).females + UpdateCards(b, selected).females
    ensures UpdateCards(a + b, selected).total == UpdateCards(a, selected).total + UpdateCards(b, selected).total
  {
    SelectedSumAppend(a, b, selected, Males);
    SelectedSumAppend(a, b, selected, Females);
    SelectedSumAppend(a, b, selected, Total);
  }

  /** Card triples are added card by card. */
  lemma PlusByField(x: Cards, y: Cards, z: Cards)
    requires x.males == y.males + z.males && x.females == y.females + z.females && x.total == y.total + z.total
    ensures x == Plus(y, z)
  {
  }

  /** One card's column, summed over the selected rows of a concatenation. */
  lemma SelectedSumAppend(a: seq<Row<RosterCells>>, b: seq<Row<RosterCells>>, selected: seq<string>, col: Column)
    ensures ColumnSum(Filter(a + b, selected), col) ==
      ColumnSum(Filter(a, selected), col) + ColumnSum(Filter(b, selected), col)
  {
    FilterAppend(a, b, selected);
    ColumnSumAppend(Filter(a, selected), Filter(b, selected), col);
  }

  /** One roster row adds its own three cells when its club is selected and
      nothing otherwise. With `CardsAppend` this fixes every card value. */
  lemma CardsOfRow(row: Row<RosterCells>, selected: seq<string>)
    ensures UpdateCards([row], selected) ==
      if row.club in selected then Cards(row.cells.males, row.cells.females, row.cells.total)
      else Cards(0, 0, 0)
  {
    assert [row][1..] == [];
    assert Filter([row], selected) == if row.club in selected then [row] else [];
    if row.club in selected {
      assert ColumnSum([row], Males) == row.cells.males;
      assert ColumnSum([row], Females) == row.cells.females;
      assert ColumnSum([row], Total) == row.cells.total;
    }
  }

  /** An empty selection shows zero on every card. */
  lemma CardsNothingSelected(roster: seq<Row<RosterCells>>)
    ensures UpdateCards(roster, []) == Cards(0, 0, 0)
  {
    FilterNone(roster, []);
  }

  /** A club listed twice in the selection is counted once: only the set of
      selected names matters. */
  lemma CardsDependOnSet(roster: seq<Row<RosterCells>>, s1: seq<string>, s2: seq<string>)
    requires forall c :: c in s1 <==> c in s2
    ensures UpdateCards(roster, s1) == UpdateCards(roster, s2)
  {
    FilterDependsOnSet(roster, s1, s2);
  }

  /** Selecting more clubs never lowers a card. */
  lemma CardsMonotone(roster: seq<Row<RosterCells>>, small: seq<string>, large: seq<string>)
    requires forall c :: c in small ==> c in large
    ensures UpdateCards(roster, small).males <= UpdateCards(roster, large).males
    ensures UpdateCards(roster, small).females <= UpdateCards(roster, large).females
    ensures UpdateCards(roster, small).total <= UpdateCards(roster, large).total
  {
    FilterNarrower(roster, small, large);
    var a, b := Filter(roster, small), Filter(roster, large);
    ColumnSumSubsequence(a, b, Males);
    ColumnSumSubsequence(a, b, Females);
    ColumnSumSubsequence(a, b, Total);
  }

  /** "Select All", once resolved, shows the column sums of the whole roster. */
  lemma CardsSelectAll(roster: seq<Row<RosterCells>>, selected: seq<string>)
    requires SelectAll in selected
    ensures UpdateCards(roster, UpdateDropdown(selected, AllClubs(roster))) ==
      Cards(ColumnSum(roster, Males), ColumnSum(roster, Females), ColumnSum(roster, Total))
  {
    FilterEverything(roster, AllClubs(roster));
  }

  /** Before the resolved list is written back, the raw "Select All" value
      matches no roster row (unless a club is named "all"). */
  lemma SentinelAloneSelectsNothing(roster: seq<Row<RosterCells>>)
    requires SelectAll !in AllClubs(roster)
    ensures UpdateCards(roster, [SelectAll]) == Cards(0, 0, 0)
  {
    FilterNone(roster, [SelectAll]);
  }

  // -----------------------------------------------------------------------
  // The two line charts

  /** `update_membership_line_chart`: the membership rows of the selected
      clubs, in sheet order, duplicates kept. */
  function UpdateMembershipChart(membership: seq<Row<MembershipCells>>, selected: seq<string>)
    : (r: seq<Row<MembershipCells>>)
    ensures IsSubsequence(r, membership)
    ensures forall x :: multiset(r)[x] == if x.club in selected then multiset(membership)[x] else 0
  {
    FilterIsSubsequence(membership, selected);
    FilterCount(membership, selected);
    Filter(membership, selected)
  }

  /** `update_average_session_line_chart`: the session rows of the selected
      clubs, in sheet order, duplicates kept. */
  function UpdateSessionChart(sessions: seq<Row<SessionCells>>, selected: seq<string>)
    : (r: seq<Row<SessionCells>>)
    ensures IsSubsequence(r, sessions)
    ensures forall x :: multiset(r)[x] == if x.club in selected then multiset(sessions)[x] else 0
  {
    FilterIsSubsequence(sessions, selected);
    FilterCount(sessions, selected);
    Filter(sessions, selected)
  }

  /** A row is plotted only when its club is selected. */
  lemma FilteredClubsAreSelected<D>(t: seq<Row<D>>, selected: seq<string>)
    ensures forall x :: x in Filter(t, selected) ==> x.club in selected
  {
    FilterCount(t, selected);
    forall x | x in Filter(t, selected) ensures x.club in selected {
      assert multiset(Filter(t, selected))[x] > 0;
    }
  }

  /** With a selection taken from the dropdown, a membership or session row
      whose name matches no roster club is never plotted. */
  lemma UnmatchedRowsNeverShown<D>(roster: seq<Row<RosterCells>>, t: seq<Row<D>>, selected: seq<string>)
    requires forall c :: c in selected ==> c == SelectAll || c in AllClubs(roster)
    ensures forall x :: x in Filter(t, UpdateDropdown(selected, AllClubs(roster))) ==>
      exists i :: 0 <= i < |roster| && roster[i].club == x.club
  {
    FilteredClubsAreSelected(t, UpdateDropdown(selected, AllClubs(roster)));
  }

  // -----------------------------------------------------------------------
  // Worked examples

  /** A roster of two clubs. */
  const ExampleRoster: seq<Row<RosterCells>> :=
    [Row("Mankranso ", RosterCells(10, 8, 18)), Row("Boatengkrom ", RosterCells(5, 7, 12))]

  /** Selecting one club shows its own counts. */
  lemma CardsOneClubExample()
    ensures UpdateCards(ExampleRoster, ["Mankranso "]) == Cards(10, 8, 18)
  {
    var r0, r1 := ExampleRoster[0], ExampleRoster[1];
    assert ExampleRoster == [r0] + [r1];
    CardsAppend([r0], [r1], ["Mankranso "]);
    CardsOfRow(r0, ["Mankranso "]);
    assert "Boatengkrom " != "Mankranso ";
    CardsOfRow(r1, ["Mankranso "]);
  }

  /** "Select All" shows the counts of both clubs. */
  lemma CardsSelectAllExample()
    ensures UpdateCards(ExampleRoster, UpdateDropdown([SelectAll], AllClubs(ExampleRoster))) == Cards(15, 15, 30)
  {
    CardsSelectAll(ExampleRoster, [SelectAll]);
    assert ExampleRoster[1..][1..] == [];
  }

  /** The 'Total' column is summed as recorded, even when it disagrees with
      males plus females. */
  lemma CardsKeepRecordedTotal()
    ensures UpdateCards([Row("Kunsu ", RosterCells(10, 8, 20))], ["Kunsu "]) == Cards(10, 8, 20)
  {
    CardsOfRow(Row("Kunsu ", RosterCells(10, 8, 20)), ["Kunsu "]);
  }

  /** Two membership rows for one club both reach the chart. */
  lemma ChartKeepsDuplicates(a: MembershipCells, b: MembershipCells, c: MembershipCells)
    ensures UpdateMembershipChart([Row("Kunsu ", a), Row("Asuadei ", b), Row("Kunsu ", c)], ["Kunsu "])
            == [Row("Kunsu ", a), Row("Kunsu ", c)]
  {
    var sel := ["Kunsu "];
    var t := [Row("Kunsu ", a), Row("Asuadei ", b), Row("Kunsu ", c)];
    var t1, t2 := [Row("Asuadei ", b), Row("Kunsu ", c)], [Row("Kunsu ", c)];
    assert t[1..] == t1 && t1[1..] == t2 && t2[1..] == [];
    assert "Asuadei " !in sel;
    assert Filter(t2, sel) == t2;
    assert Filter(t1, sel) == t2;
    assert Filter(t, sel) == [t[0]] + t2;
  }
}
