/**
 * The HR analytics page: head-count and age metrics, the category charts
 * with their exclusion lists, the experience histogram, the experience and
 * salary statistics with the placeholder values removed, and the four
 * top-ten tables.
 */
module HrAnalytics {
  import opened Frame

  /** One row of the staff table (the columns the page reads). */
  datatype Staff = Staff(
    id: int,
    name: string,
    age: int,
    salary: int,
    department: string,
    stream: string,
    designation: string,
    qualification: string,
    gender: string,
    experience: int)

  /** Placeholder values the staff table uses for an unknown experience or salary. */
  const ExperienceSentinel: int := 9999
  const SalarySentinel: int := 999999999

  /** Labels of the support and maintenance staff, kept out of the department and stream charts. */
  const SupportRoles: seq<string> := ["Driver", "House Keeping", "Security"]

  /** Designations the designation chart leaves out besides the support roles. */
  const Heads: seq<string> := ["Dean", "Principal"]

  /** Category names of the experience histogram, one per bin. */
  const ExperienceLabels: seq<string> := ["0-2", "3-5", "6-10", "11-15", "16-20", "21-30", "Above 31"]

  const TopCount: nat := 10

  function StaffId(r: Staff): int { r.id }
  function Age(r: Staff): int { r.age }
  function Department(r: Staff): string { r.department }
  function Stream(r: Staff): string { r.stream }
  function Designation(r: Staff): string { r.designation }
  function Qualification(r: Staff): string { r.qualification }
  function Gender(r: Staff): string { r.gender }
  function Experience(r: Staff): int { r.experience }
  function Salary(r: Staff): int { r.salary }

  predicate IsSupportRole(role: string) { role in SupportRoles }
  predicate NotSupportRole(role: string) { role !in SupportRoles }
  predicate IsChartedDesignation(role: string) { role !in SupportRoles && role !in Heads }

  // Row masks of the page.
  predicate KeptDepartment(r: Staff) { NotSupportRole(r.department) }
  predicate KeptStream(r: Staff) { NotSupportRole(r.stream) }
  predicate ChartedDesignation(r: Staff) { IsChartedDesignation(r.designation) }
  predicate SupportStaff(r: Staff) { IsSupportRole(r.designation) }
  predicate KnownExperience(r: Staff) { r.experience != ExperienceSentinel }
  predicate KnownSalary(r: Staff) { r.salary != SalarySentinel }

  // ---------------------------------------------------------------------
  // Demographics
  // ---------------------------------------------------------------------

  /** Total number of staff: the number of distinct staff ids, at most the number of rows. */
  function TotalStaff(staff: seq<Staff>): (n: nat)
    ensures n == |set r | r in staff :: r.id|
    ensures n <= |staff|
  {
    MapMembers(staff, StaffId);
    assert (set x | x in Map(staff, StaffId)) == set r | r in staff :: r.id;
    NUnique(Map(staff, StaffId))
  }

  /** The head count equals the number of rows exactly when no staff id repeats. */
  lemma TotalStaffAllDistinct(staff: seq<Staff>)
    ensures TotalStaff(staff) == |staff| <==> NoDup(Map(staff, StaffId))
  {
    NUniqueAllDistinct(Map(staff, StaffId));
  }

  /** The minimum age: the age of some employee and no employee younger; None on an empty table. */
  function MinAge(staff: seq<Staff>): (m: Option<int>)
    ensures m.None? <==> staff == []
    ensures m.Some? ==> (exists r :: r in staff && r.age == m.value)
                        && forall r :: r in staff ==> m.value <= r.age
  {
    var ages := Map(staff, Age);
    MapMembers(staff, Age);
    assert forall r :: r in staff ==> Age(r) in ages;
    Min(ages)
  }

  // ---------------------------------------------------------------------
  // Category tabs
  // ---------------------------------------------------------------------

  /** Employees by department, the support roles excluded, largest first. */
  function DepartmentCounts(staff: seq<Staff>): (t: seq<(string, nat)>)
    ensures IsFilteredCounts(t, staff, KeptDepartment, Department)
    ensures forall i :: 0 <= i < |t| ==> t[i].0 !in SupportRoles
    ensures NonIncreasing(Counts(t))
  {
    var t := ValueCounts(Map(Filter(staff, KeptDepartment), Department));
    FilteredCountTable(t, staff, KeptDepartment, Department);
    FilteredKeep(t, staff, KeptDepartment, Department, NotSupportRole);
    t
  }

  /** Employees by stream, the support roles excluded, largest first. */
  function StreamCounts(staff: seq<Staff>): (t: seq<(string, nat)>)
    ensures IsFilteredCounts(t, staff, KeptStream, Stream)
    ensures forall i :: 0 <= i < |t| ==> t[i].0 !in SupportRoles
    ensures NonIncreasing(Counts(t))
  {
    var t := ValueCounts(Map(Filter(staff, KeptStream), Stream));
    FilteredCountTable(t, staff, KeptStream, Stream);
    FilteredKeep(t, staff, KeptStream, Stream, NotSupportRole);
    t
  }

  /** Employees by qualification, every row counted, largest first. */
  function QualificationCounts(staff: seq<Staff>): (t: seq<(string, nat)>)
    ensures IsFilteredCounts(t, staff, AllRows, Qualification)
    ensures Sum(Counts(t)) == |staff|
    ensures NonIncreasing(Counts(t))
  {
    var t := ValueCounts(Map(staff, Qualification));
    ColumnCountTable(t, staff, Qualification);
    t
  }

  /** Employees by designation, the support roles and the heads excluded, largest first. */
  function DesignationCounts(staff: seq<Staff>): (t: seq<(string, nat)>)
    ensures IsFilteredCounts(t, staff, ChartedDesignation, Designation)
    ensures forall i :: 0 <= i < |t| ==> t[i].0 !in SupportRoles && t[i].0 !in Heads
    ensures NonIncreasing(Counts(t))
  {
    var t := ValueCounts(Map(Filter(staff, ChartedDesignation), Designation));
    FilteredCountTable(t, staff, ChartedDesignation, Designation);
    FilteredKeep(t, staff, ChartedDesignation, Designation, IsChartedDesignation);
    t
  }

  /** Employees by gender, every row counted, largest first. */
  function GenderCounts(staff: seq<Staff>): (t: seq<(string, nat)>)
    ensures IsFilteredCounts(t, staff, AllRows, Gender)
    ensures Sum(Counts(t)) == |staff|
    ensures NonIncreasing(Counts(t))
  {
    var t := ValueCounts(Map(staff, Gender));
    ColumnCountTable(t, staff, Gender);
    t
  }

  /** Support and maintenance staff by designation: only the support roles, largest first. */
  function SupportStaffCounts(staff: seq<Staff>): (t: seq<(string, nat)>)
    ensures IsFilteredCounts(t, staff, SupportStaff, Designation)
    ensures forall i :: 0 <= i < |t| ==> t[i].0 in SupportRoles
    ensures NonIncreasing(Counts(t))
  {
    var t := ValueCounts(Map(Filter(staff, SupportStaff), Designation));
    FilteredCountTable(t, staff, SupportStaff, Designation);
    FilteredKeep(t, staff, SupportStaff, Designation, IsSupportRole);
    t
  }

  /**
   * The support-staff chart and the designation chart share no label, and
   * together they count no more employees than the table holds.
   */
  lemma SupportAndDesignationDisjoint(staff: seq<Staff>)
    ensures var sup, desn := SupportStaffCounts(staff), DesignationCounts(staff);
            && (forall i, j :: 0 <= i < |sup| && 0 <= j < |desn| ==> sup[i].0 != desn[j].0)
            && Sum(Counts(sup)) + Sum(Counts(desn)) <= |staff|
  {
    FilteredCountsDisjoint(SupportStaffCounts(staff), DesignationCounts(staff), staff,
                           SupportStaff, ChartedDesignation, Designation);
  }

  // ---------------------------------------------------------------------
  // Experience histogram
  // ---------------------------------------------------------------------

  /**
   * pd.cut needs increasing edges: the largest experience in the table (the
   * placeholder rows included) must lie above the fixed edge 30.
   */
  predicate HasExperienceBins(staff: seq<Staff>)
  {
    var m := Max(Map(staff, Experience));
    m.Some? && m.value > 30
  }

  /** The bin edges: fixed up to 30, then the largest experience in the table. */
  function ExperienceEdges(staff: seq<Staff>): (edges: seq<int>)
    requires HasExperienceBins(staff)
    ensures |edges| == 8 && StrictlyIncreasing(edges)
    ensures edges[0] == 0
    ensures forall r :: r in staff ==> r.experience <= edges[7]
  {
    var values := Map(staff, Experience);
    MapContains(staff, Experience);
    EdgesIncreasing(Max(values).value);
    [0, 2, 5, 10, 15, 20, 30, Max(values).value]
  }

  lemma EdgesIncreasing(top: int)
    requires top > 30
    ensures StrictlyIncreasing([0, 2, 5, 10, 15, 20, 30, top])
  {
  }

  /** The Experience_Range column: for each employee the bin code, or None outside every bin. */
  function ExperienceRange(staff: seq<Staff>): (codes: seq<Option<nat>>)
    requires HasExperienceBins(staff)
    ensures |codes| == |staff|
    ensures forall i :: 0 <= i < |staff| ==>
              (codes[i].None? <==> staff[i].experience <= 0)
              && (codes[i].Some? ==> codes[i].value < 7
                                     && InBin(ExperienceEdges(staff), codes[i].value, staff[i].experience))
  {
    var edges := ExperienceEdges(staff);
    var codes := Cut(edges, Map(staff, Experience));
    forall i | 0 <= i < |staff|
      ensures (codes[i].None? <==> staff[i].experience <= 0)
              && (codes[i].Some? ==> codes[i].value < 7 && InBin(edges, codes[i].value, staff[i].experience))
    {
      assert staff[i] in staff;
      BinRange(edges, staff[i].experience);
    }
    codes
  }

  /**
   * The experience histogram in bin order: bin b counts the employees whose
   * experience lies in (edges[b], edges[b+1]], and the bins together count
   * every employee with a positive experience.
   */
  function ExperienceHistogram(staff: seq<Staff>): (h: seq<(string, nat)>)
    requires HasExperienceBins(staff)
    ensures |h| == 7 && Labels(h) == ExperienceLabels
    ensures forall b :: 0 <= b < 7 ==>
              h[b].1 == |set i | 0 <= i < |staff| && ExperienceEdges(staff)[b] < staff[i].experience <= ExperienceEdges(staff)[b + 1]|
    ensures Sum(Counts(h)) == |set i | 0 <= i < |staff| && 0 < staff[i].experience|
  {
    var edges, values := ExperienceEdges(staff), Map(staff, Experience);
    CutCounts(edges, values);
    var c := BinCounts(Cut(edges, values), 7);
    ExperienceBinSets(staff, edges);
    var h := Zip(ExperienceLabels, c);
    assert Labels(h) == ExperienceLabels;
    assert Counts(h) == c;
    h
  }

  /** The index sets of CutCounts over the experience column, restated over the staff rows. */
  lemma ExperienceBinSets(staff: seq<Staff>, edges: seq<int>)
    requires |edges| == 8 && edges[0] == 0
    ensures var values := Map(staff, Experience);
            forall b :: 0 <= b < 7 ==>
              (set i | 0 <= i < |values| && edges[b] < values[i] <= edges[b + 1])
              == set i | 0 <= i < |staff| && edges[b] < staff[i].experience <= edges[b + 1]
    ensures var values := Map(staff, Experience);
            (forall r :: r in staff ==> r.experience <= edges[7]) ==>
              (set i | 0 <= i < |values| && edges[0] < values[i] <= edges[7])
              == set i | 0 <= i < |staff| && 0 < staff[i].experience
  {
    var values := Map(staff, Experience);
    forall b | 0 <= b < 7
      ensures (set i | 0 <= i < |values| && edges[b] < values[i] <= edges[b + 1])
           == set i | 0 <= i < |staff| && edges[b] < staff[i].experience <= edges[b + 1]
    {
    }
    if forall r :: r in staff ==> r.experience <= edges[7] {
      forall i | 0 <= i < |staff| ensures 0 < staff[i].experience <==> edges[0] < values[i] <= edges[7] {
        assert staff[i] in staff;
      }
    }
  }

  /** An employee with no experience (0) falls in no bin and is not counted. */
  lemma ZeroExperienceUnbinned(staff: seq<Staff>, i: int)
    requires HasExperienceBins(staff) && 0 <= i < |staff| && staff[i].experience == 0
    ensures ExperienceRange(staff)[i].None?
  {
  }

  /**
   * The placeholder experience 9999 is not removed before binning: such an
   * employee lands in the last bin, "Above 31".
   */
  lemma SentinelInTopBin(staff: seq<Staff>, i: int)
    requires HasExperienceBins(staff) && 0 <= i < |staff| && staff[i].experience == ExperienceSentinel
    ensures ExperienceRange(staff)[i] == Some(6)
    ensures ExperienceLabels[ExperienceRange(staff)[i].value] == "Above 31"
  {
    var edges := ExperienceEdges(staff);
    var code := ExperienceRange(staff)[i];
    assert staff[i] in staff;
    assert InBin(edges, 6, staff[i].experience);
    BinUnique(edges, staff[i].experience, 6, code.value);
  }

  /**
   * The table object of the page: the tab assigns the Experience_Range column
   * in place and then counts that column per category, in category order.
   */
  class StaffTable {
    var staff: seq<Staff>
    var experienceRange: seq<Option<nat>>

    constructor (staff: seq<Staff>)
      ensures this.staff == staff && experienceRange == []
    {
      this.staff := staff;
      experienceRange := [];
    }

    method ExperienceTab() returns (h: seq<(string, nat)>)
      requires HasExperienceBins(staff)
      modifies this
      ensures staff == old(staff)
      ensures experienceRange == ExperienceRange(staff)
      ensures h == ExperienceHistogram(staff)
    {
      experienceRange := Cut(ExperienceEdges(staff), Map(staff, Experience));
      h := Zip(ExperienceLabels, BinCounts(experienceRange, |ExperienceLabels|));
    }
  }

  // ---------------------------------------------------------------------
  // Experience and salary statistics
  // ---------------------------------------------------------------------

  /** The largest experience among the rows whose experience is known. */
  function MaxExperience(staff: seq<Staff>): (m: Option<int>)
    ensures m.None? <==> forall r :: r in staff ==> r.experience == ExperienceSentinel
    ensures m.Some? ==> m.value != ExperienceSentinel
                        && (exists r :: r in staff && r.experience == m.value)
                        && forall r :: r in staff && r.experience != ExperienceSentinel ==> r.experience <= m.value
  {
    MaxWhere(staff, KnownExperience, Experience)
  }

  /** The smallest experience among the rows whose experience is known. */
  function MinExperience(staff: seq<Staff>): (m: Option<int>)
    ensures m.None? <==> forall r :: r in staff ==> r.experience == ExperienceSentinel
    ensures m.Some? ==> m.value != ExperienceSentinel
                        && (exists r :: r in staff && r.experience == m.value)
                        && forall r :: r in staff && r.experience != ExperienceSentinel ==> m.value <= r.experience
  {
    MinWhere(staff, KnownExperience, Experience)
  }

  /** The largest salary among the rows whose salary is known. */
  function MaxSalary(staff: seq<Staff>): (m: Option<int>)
    ensures m.None? <==> forall r :: r in staff ==> r.salary == SalarySentinel
    ensures m.Some? ==> m.value != SalarySentinel
                        && (exists r :: r in staff && r.salary == m.value)
                        && forall r :: r in staff && r.salary != SalarySentinel ==> r.salary <= m.value
  {
    MaxWhere(staff, KnownSalary, Salary)
  }

  /** The smallest salary among the rows whose salary is known. */
  function MinSalary(staff: seq<Staff>): (m: Option<int>)
    ensures m.None? <==> forall r :: r in staff ==> r.salary == SalarySentinel
    ensures m.Some? ==> m.value != SalarySentinel
                        && (exists r :: r in staff && r.salary == m.value)
                        && forall r :: r in staff && r.salary != SalarySentinel ==> m.value <= r.salary
  {
    MinWhere(staff, KnownSalary, Salary)
  }

  /** Minimum and maximum are defined together, and the minimum is at most the maximum. */
  lemma StatisticsOrdered(staff: seq<Staff>)
    ensures MinExperience(staff).Some? <==> MaxExperience(staff).Some?
    ensures MinExperience(staff).Some? ==> MinExperience(staff).value <= MaxExperience(staff).value
    ensures MinSalary(staff).Some? <==> MaxSalary(staff).Some?
    ensures MinSalary(staff).Some? ==> MinSalary(staff).value <= MaxSalary(staff).value
  {
    MinBelowMax(staff, KnownExperience, Experience);
    MinBelowMax(staff, KnownSalary, Salary);
  }

  // ---------------------------------------------------------------------
  // Top ten tables
  // ---------------------------------------------------------------------

  /** The ten most experienced employees with a known experience, most experienced first. */
  function MostExperienced(staff: seq<Staff>): (top: seq<Staff>)
    ensures var m := CountWhere(staff, KnownExperience); |top| == if m < TopCount then m else TopCount
    ensures multiset(top) <= multiset(Filter(staff, KnownExperience))
    ensures forall r :: r in top ==> r in staff && KnownExperience(r)
    ensures SortedDesc(top, Experience)
    ensures forall r, o :: r in top && o in multiset(Filter(staff, KnownExperience)) - multiset(top)
              ==> Experience(o) <= Experience(r)
  {
    TopRows(staff, KnownExperience, Experience, TopCount);
    TopBy(staff, KnownExperience, Experience, TopCount)
  }

  /** The ten least experienced employees with a known experience, least experienced first. */
  function LeastExperienced(staff: seq<Staff>): (top: seq<Staff>)
    ensures var m := CountWhere(staff, KnownExperience); |top| == if m < TopCount then m else TopCount
    ensures multiset(top) <= multiset(Filter(staff, KnownExperience))
    ensures forall r :: r in top ==> r in staff && KnownExperience(r)
    ensures forall i, j :: 0 <= i < j < |top| ==> Experience(top[i]) <= Experience(top[j])
    ensures forall r, o :: r in top && o in multiset(Filter(staff, KnownExperience)) - multiset(top)
              ==> Experience(r) <= Experience(o)
  {
    BottomRows(staff, KnownExperience, Experience, TopCount);
    BottomBy(staff, KnownExperience, Experience, TopCount)
  }

  /** The ten best-paid employees with a known salary, best paid first. */
  function HighestSalaries(staff: seq<Staff>): (top: seq<Staff>)
    ensures var m := CountWhere(staff, KnownSalary); |top| == if m < TopCount then m else TopCount
    ensures multiset(top) <= multiset(Filter(staff, KnownSalary))
    ensures forall r :: r in top ==> r in staff && KnownSalary(r)
    ensures SortedDesc(top, Salary)
    ensures forall r, o :: r in top && o in multiset(Filter(staff, KnownSalary)) - multiset(top)
              ==> Salary(o) <= Salary(r)
  {
    TopRows(staff, KnownSalary, Salary, TopCount);
    TopBy(staff, KnownSalary, Salary, TopCount)
  }

  /** The ten lowest-paid employees with a known salary, lowest paid first. */
  function LowestSalaries(staff: seq<Staff>): (top: seq<Staff>)
    ensures var m := CountWhere(staff, KnownSalary); |top| == if m < TopCount then m else TopCount
    ensures multiset(top) <= multiset(Filter(staff, KnownSalary))
    ensures forall r :: r in top ==> r in staff && KnownSalary(r)
    ensures forall i, j :: 0 <= i < j < |top| ==> Salary(top[i]) <= Salary(top[j])
    ensures forall r, o :: r in top && o in multiset(Filter(staff, KnownSalary)) - multiset(top)
              ==> Salary(r) <= Salary(o)
  {
    BottomRows(staff, KnownSalary, Salary, TopCount);
    BottomBy(staff, KnownSalary, Salary, TopCount)
  }
}
