/** Worked examples on small datasets: the gender and age filters on five
    appointments, and the chronic-condition fan-out of one appointment. */
module Scenarios {
  import opened Optional
  import opened Records
  import opened Filtering
  import opened Grouping
  import opened Aggregates
  import opened ChronicConditions

  function Appointment(gender: string, age: int, noShow: string): Record
  {
    Record(gender, "CENTRO", age, noShow, "Monday", 0, 0, 0, 0)
  }

  /** Three women aged 30, 40 and 50 who attended, two men aged 20 and 60
      who did not. */
  function FiveAppointments(): seq<Record>
  {
    [ Appointment("F", 30, No), Appointment("F", 40, No), Appointment("F", 50, No),
      Appointment("M", 20, Yes), Appointment("M", 60, Yes) ]
  }

  /** Gender "F" chosen, the age slider at its initial [0, 100]. */
  function Women(): FilterState
  {
    FilterState(Some("F"), None, Bounds([0, 100]))
  }

  /** Only the age slider set, to [25, 45]. */
  function AgedTwentyFiveToFortyFive(): FilterState
  {
    FilterState(None, None, Bounds([25, 45]))
  }

  lemma {:induction false} WomenSelected()
    ensures Select(FiveAppointments(), [GenderIs("F"), AgeBetween(0, 100)]) == FiveAppointments()[..3]
  {
    var rows := FiveAppointments();
    var ms := [GenderIs("F"), AgeBetween(0, 100)];
    assert "M" != "F" by { assert "M"[0] != "F"[0]; }
    assert !Holds(ms[0], rows[3]) && !Holds(ms[0], rows[4]);
    assert forall i :: 0 <= i < 3 ==> Holds(ms[0], rows[i]) && Holds(ms[1], rows[i]);
    assert AllHold(ms, rows[0]) && AllHold(ms, rows[1]) && AllHold(ms, rows[2]);
    assert rows[4..][1..] == [];
    assert Select(rows[4..], ms) == [];
    assert Select(rows[3..], ms) == [];
    assert Select(rows[2..], ms) == [rows[2]];
    assert Select(rows[1..], ms) == [rows[1], rows[2]];
  }

  lemma WomenView()
    ensures View(FiveAppointments(), Women(), KpiCards) == FiveAppointments()[..3]
  {
    FilterIsOneSelection(FiveAppointments(), Women(), Unconstrained);
    assert Masks(Women(), Unconstrained) == [GenderIs("F"), AgeBetween(0, 100)];
    WomenSelected();
  }

  /** Filtering on gender "F" shows 3 appointments, 0 no-shows, 3 shows. */
  lemma WomenKpis()
    ensures Tally(View(FiveAppointments(), Women(), KpiCards)) == Kpis(3, 0, 3)
    ensures UpdateKpis(FiveAppointments(), Women()) == KpiText("3", "0", "3")
  {
    WomenView();
  }

  lemma ThreeAttendedGroup()
    ensures GroupSizes([[No], [No], [No]]) == [Group([No], 3)]
  {
    var k: Key := [No];
    assert [k][..0] == [] && [k, k][..1] == [k] && [k, k, k][..2] == [k, k];
    assert GroupSizes([k]) == [Group(k, 1)];
    assert GroupSizes([k, k]) == [Group(k, 2)];
  }

  lemma WomenFlags()
    ensures KeyColumn(FiveAppointments()[..3], ByNoShow) == [[No], [No], [No]]
  {
  }

  /** The attendance split of the women is the single row ("No", 3). */
  lemma WomenSplit()
    ensures UpdateNoshowRates(FiveAppointments(), Women()) == [Group([No], 3)]
  {
    WomenView();
    WomenFlags();
    ThreeAttendedGroup();
  }

  lemma {:induction false} AgesSelected()
    ensures Select(FiveAppointments(), [AgeBetween(25, 45)]) == FiveAppointments()[..2]
  {
    var rows := FiveAppointments();
    var ms := [AgeBetween(25, 45)];
    assert !Holds(ms[0], rows[2]) && !Holds(ms[0], rows[3]) && !Holds(ms[0], rows[4]);
    assert rows[4..][1..] == [];
    assert Select(rows[4..], ms) == [];
    assert Select(rows[3..], ms) == [];
    assert Select(rows[2..], ms) == [];
    assert Select(rows[1..], ms) == [rows[1]];
  }

  /** The age window [25, 45] keeps exactly the women aged 30 and 40. */
  lemma AgeWindowScenario()
    ensures View(FiveAppointments(), AgedTwentyFiveToFortyFive(), KpiCards) == FiveAppointments()[..2]
    ensures Tally(View(FiveAppointments(), AgedTwentyFiveToFortyFive(), KpiCards)).total == 2
  {
    FilterIsOneSelection(FiveAppointments(), AgedTwentyFiveToFortyFive(), Unconstrained);
    assert Masks(AgedTwentyFiveToFortyFive(), Unconstrained) == [AgeBetween(25, 45)];
    AgesSelected();
  }

  /** One no-show with both hypertension and diabetes. */
  function TwoConditions(): Record
  {
    Record("F", "CENTRO", 50, Yes, "Monday", 1, 1, 0, 0)
  }

  /** Fan-out: the one appointment adds one to (Diabetes, Yes) and one to
      (Hipertension, Yes), two bars in total. */
  lemma ChronicFanOut()
    ensures var t := ChronicNoshow([TwoConditions()], FilterState(None, None, NotAList));
      && SizeOf(t, ["Hipertension", Yes]) == 1
      && SizeOf(t, ["Diabetes", Yes]) == 1
      && TotalSize(t) == 2
  {
    var rows := [TwoConditions()];
    var st := FilterState(None, None, NotAList);
    var view := View(rows, st, ChronicChart);
    assert TwoConditions() in view by {
      FilterMembership(rows, st, ZeroToHundred, TwoConditions());
    }
    assert view == rows;
    ChronicCounts(rows, st, Hipertension, Yes);
    ChronicCounts(rows, st, Diabetes, Yes);
    ChronicTotal(rows, st);
  }
}
