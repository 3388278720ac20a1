/**
 * The benefits resolver: the constant BENEFITS table, `campus_key` and
 * `compute_benefits_mapping`. Amounts in the table are in thousands of AED
 * where the source's key ends in `_k`, otherwise in AED.
 */
module Benefits {
  import opened Wrappers
  import opened Amounts

  /** The two campus brackets the table is keyed by: "AD/Dubai" and "AA". */
  datatype Bracket = ADDubai | AA

  datatype Marital = Single | Married

  /** One bracket-by-marital-status block of the table (values in thousands). */
  datatype Grid = Grid(adSingle: nat, adMarried: nat, aaSingle: nat, aaMarried: nat)
  {
    function At(b: Bracket, m: Marital): nat
    {
      match (b, m)
      case (ADDubai, Single) => adSingle
      case (ADDubai, Married) => adMarried
      case (AA, Single) => aaSingle
      case (AA, Married) => aaMarried
    }
  }

  /** The per-rank entry of BENEFITS. */
  datatype RankRules = RankRules(
    annualLeaveDays: nat,
    joiningTicketInternational: string,
    housingK: Grid,
    furnitureKOnce: Grid,
    repatriationAllowance: nat)

  /** The key of BENEFITS that holds the rank-independent values rather than a rank. */
  const SharedKey: string := "_shared"

  /** The rank entries of BENEFITS, keyed by the rank's display name. */
  const RankTable: map<string, RankRules> := map[
    "Professor" := RankRules(56, "1+1+2 Economy", Grid(45, 60, 35, 45), Grid(20, 30, 20, 30), 3000),
    "Associate / Sr. Lecturer" := RankRules(56, "1+1+2 Economy", Grid(45, 60, 35, 45), Grid(20, 30, 20, 30), 3000),
    "Assistant / Lecturer" := RankRules(56, "1+1+2 Economy", Grid(45, 60, 35, 45), Grid(20, 30, 20, 30), 3000),
    "Senior Instructor" := RankRules(42, "1+1+2 Economy", Grid(35, 45, 30, 40), Grid(12, 15, 12, 15), 2000),
    "Instructor" := RankRules(42, "1+1+2 Economy", Grid(35, 45, 30, 40), Grid(12, 15, 12, 15), 2000)
  ]

  /** `_shared.children_school_allowance`, in AED. */
  function ChildrenSchoolAllowance(b: Bracket): nat
  {
    match b
    case ADDubai => 60000
    case AA => 50000
  }

  /** The string key the source uses for a bracket. */
  function BracketName(b: Bracket): string
  {
    match b
    case ADDubai => "AD/Dubai"
    case AA => "AA"
  }

  /** `campus_key`: Dubai follows Abu Dhabi rules; every other campus is "AA". */
  function CampusKey(campus: string): (b: Bracket)
    ensures b == ADDubai <==> campus == "Abu Dhabi" || campus == "Dubai" || campus == "AD/Dubai"
    ensures b == AA <==> campus != "Abu Dhabi" && campus != "Dubai" && campus != "AD/Dubai"
  {
    if campus in ["Abu Dhabi", "Dubai", "AD/Dubai"] then ADDubai else AA
  }

  /** The marital-status keys of the housing and furniture blocks. */
  function MaritalOf(s: string): (r: Option<Marital>)
    ensures r == Some(Single) <==> s == "Single"
    ensures r == Some(Married) <==> s == "Married"
  {
    if s == "Single" then Some(Single) else if s == "Married" then Some(Married) else None
  }

  /** A Python `KeyError` carrying the key that was missing. */
  datatype KeyError = KeyError(key: string)

  /** The seven placeholders `compute_benefits_mapping` returns, by name. */
  datatype BenefitsMapping = BenefitsMapping(
    housingAllowance: string,
    furnitureAllowance: string,
    joiningTicket: string,
    repatriationAllowance: string,
    annualLeaveDays: nat,
    educationAllowancePerChild: string,
    educationAllowanceTotal: string)

  /** The mapping as (placeholder, text) pairs in the dictionary's order; ints go through `str`. */
  function Pairs(b: BenefitsMapping): (r: seq<(string, string)>)
    ensures |r| == 7
    ensures r[2] == ("JOINING_TICKET", b.joiningTicket)
    ensures forall i, j :: 0 <= i < j < |r| ==> r[i].0 != r[j].0
  {
    [("HOUSING_ALLOWANCE", b.housingAllowance),
     ("FURNITURE_ALLOWANCE", b.furnitureAllowance),
     ("JOINING_TICKET", b.joiningTicket),
     ("REPARIATION_ALLOWANCE", b.repatriationAllowance),
     ("ANNUAL_LEAVE_DAYS", Decimal(b.annualLeaveDays)),
     ("EDUCATION_ALLOWANCE_PER_CHILD", b.educationAllowancePerChild),
     ("EDUCATION_ALLOWANCE_TOTAL", b.educationAllowanceTotal)]
  }

  /**
   * `compute_benefits_mapping`. A rank that is not a key of BENEFITS raises
   * `KeyError(rank)`; the key "_shared" is found but lacks "housing_allowance_k";
   * a marital status other than "Single" or "Married" raises `KeyError(marital)`.
   */
  function ComputeBenefitsMapping(rank: string, marital: string, campus: string, isInternational: bool)
    : (r: Result<BenefitsMapping, KeyError>)
    ensures r.Success? <==> rank in RankTable && MaritalOf(marital).Some?
    ensures rank == SharedKey ==> r == Failure(KeyError("housing_allowance_k"))
    ensures rank != SharedKey && rank !in RankTable ==> r == Failure(KeyError(rank))
    ensures rank in RankTable && MaritalOf(marital).None? ==> r == Failure(KeyError(marital))
  {
    if rank == SharedKey then Failure(KeyError("housing_allowance_k"))
    else if rank !in RankTable then Failure(KeyError(rank))
    else
      var rules := RankTable[rank];
      var ckey := CampusKey(campus);
      match MaritalOf(marital)
      case None => Failure(KeyError(marital))
      case Some(m) =>
        var housing := rules.housingK.At(ckey, m) * 1000;
        var furniture := rules.furnitureKOnce.At(ckey, m) * 1000;
        var edu := ChildrenSchoolAllowance(ckey);
        // Commencement (joining) ticket only for international hires
        var joining := if isInternational then rules.joiningTicketInternational else "";
        Success(BenefitsMapping(
          FmtAmt(housing),
          FmtAmt(furniture),
          joining,
          FmtAmt(rules.repatriationAllowance),
          rules.annualLeaveDays,
          FmtAmt(edu),
          FmtAmt(edu)))
  }

  // ---------------------------------------------------------------------------
  // Properties of the resolver

  /**
   * The table holds five ranks and no rank is named "_shared". Every rank has
   * a positive housing and furniture value in each bracket for each marital status,
   * and a married person never gets less than a single one.
   */
  lemma RankTableRanks()
    ensures RankTable.Keys
         == {"Professor", "Associate / Sr. Lecturer", "Assistant / Lecturer", "Senior Instructor", "Instructor"}
    ensures SharedKey !in RankTable
    ensures forall r, b, m :: r in RankTable ==>
              RankTable[r].housingK.At(b, m) > 0 && RankTable[r].furnitureKOnce.At(b, m) > 0
    ensures forall r, b :: r in RankTable ==>
              RankTable[r].housingK.At(b, Single) <= RankTable[r].housingK.At(b, Married)
  {
  }

  /** Normalising a bracket's own name gives that bracket back. */
  lemma CampusKeyIdempotent(b: Bracket)
    ensures CampusKey(BracketName(b)) == b
  {
  }

  /** The form's three campuses: Abu Dhabi and Dubai share a bracket, Al Ain is "AA". */
  lemma CampusChoices()
    ensures CampusKey("Abu Dhabi") == CampusKey("Dubai") == ADDubai
    ensures CampusKey("Al Ain") == AA
  {
  }

  /**
   * Housing and furniture are the table's thousands-values times 1000, rendered
   * with separators: reading the rendered text back gives exactly that number.
   */
  lemma AllowancesScaled(rank: string, marital: string, campus: string, isInternational: bool)
    requires ComputeBenefitsMapping(rank, marital, campus, isInternational).Success?
    ensures var b := ComputeBenefitsMapping(rank, marital, campus, isInternational).value;
            var m := MaritalOf(marital).value;
            var ckey := CampusKey(campus);
            && ParseAmt(b.housingAllowance) == Some(RankTable[rank].housingK.At(ckey, m) * 1000)
            && ParseAmt(b.furnitureAllowance) == Some(RankTable[rank].furnitureKOnce.At(ckey, m) * 1000)
            && ParseAmt(b.repatriationAllowance) == Some(RankTable[rank].repatriationAllowance)
  {
    var m := MaritalOf(marital).value;
    var ckey := CampusKey(campus);
    ParseFmtAmt(RankTable[rank].housingK.At(ckey, m) * 1000);
    ParseFmtAmt(RankTable[rank].furnitureKOnce.At(ckey, m) * 1000);
    ParseFmtAmt(RankTable[rank].repatriationAllowance);
  }

  /** The joining ticket is empty exactly for local hires, and otherwise is the rank's ticket. */
  lemma JoiningTicketOnlyInternational(rank: string, marital: string, campus: string, isInternational: bool)
    requires ComputeBenefitsMapping(rank, marital, campus, isInternational).Success?
    ensures var b := ComputeBenefitsMapping(rank, marital, campus, isInternational).value;
            && (b.joiningTicket == "" <==> !isInternational)
            && (isInternational ==> b.joiningTicket == RankTable[rank].joiningTicketInternational)
  {
  }

  /**
   * Both education figures are the same text and depend on the campus bracket
   * only: two lookups for campuses in the same bracket agree on them, whatever
   * the rank, marital status and hire type.
   */
  lemma EducationOnlyByBracket(
    rank1: string, marital1: string, campus1: string, int1: bool,
    rank2: string, marital2: string, campus2: string, int2: bool)
    requires ComputeBenefitsMapping(rank1, marital1, campus1, int1).Success?
    requires ComputeBenefitsMapping(rank2, marital2, campus2, int2).Success?
    requires CampusKey(campus1) == CampusKey(campus2)
    ensures var b1 := ComputeBenefitsMapping(rank1, marital1, campus1, int1).value;
            var b2 := ComputeBenefitsMapping(rank2, marital2, campus2, int2).value;
            && b1.educationAllowancePerChild == b1.educationAllowanceTotal
            && b1.educationAllowancePerChild == b2.educationAllowancePerChild
            && ParseAmt(b1.educationAllowanceTotal) == Some(ChildrenSchoolAllowance(CampusKey(campus1)))
  {
    ParseFmtAmt(ChildrenSchoolAllowance(CampusKey(campus1)));
  }

  /** Annual leave and repatriation depend on the rank only. */
  lemma LeaveAndRepatriationOnlyByRank(
    rank: string, marital1: string, campus1: string, int1: bool,
    marital2: string, campus2: string, int2: bool)
    requires ComputeBenefitsMapping(rank, marital1, campus1, int1).Success?
    requires ComputeBenefitsMapping(rank, marital2, campus2, int2).Success?
    ensures var b1 := ComputeBenefitsMapping(rank, marital1, campus1, int1).value;
            var b2 := ComputeBenefitsMapping(rank, marital2, campus2, int2).value;
            && b1.annualLeaveDays == b2.annualLeaveDays == RankTable[rank].annualLeaveDays
            && b1.repatriationAllowance == b2.repatriationAllowance
  {
  }

  /** A local Instructor in Dubai who is single. */
  lemma InstructorDubaiSingleLocal()
    ensures ComputeBenefitsMapping("Instructor", "Single", "Dubai", false)
         == Success(BenefitsMapping("35,000", "12,000", "", "2,000", 42, "60,000", "60,000"))
  {
    var rules := RankTable["Instructor"];
    assert CampusKey("Dubai") == ADDubai;
    assert rules.housingK.At(ADDubai, Single) == 35;
    assert rules.furnitureKOnce.At(ADDubai, Single) == 12;
    FmtAmtThousands(35);
    assert FmtAmt(35000) == "35,000" by { assert Decimal(35) == "35"; }
    FmtAmtThousands(12);
    assert FmtAmt(12000) == "12,000" by { assert Decimal(12) == "12"; }
    FmtAmtThousands(2);
    assert FmtAmt(2000) == "2,000" by { assert Decimal(2) == "2"; }
    FmtAmtThousands(60);
    assert FmtAmt(60000) == "60,000" by { assert Decimal(60) == "60"; }
  }

  /** A married Professor in Abu Dhabi: housing 60,000. */
  lemma ProfessorAbuDhabiMarried(isInternational: bool)
    ensures var r := ComputeBenefitsMapping("Professor", "Married", "Abu Dhabi", isInternational);
            r.Success? && r.value.housingAllowance == "60,000" && r.value.furnitureAllowance == "30,000"
  {
    var rules := RankTable["Professor"];
    assert CampusKey("Abu Dhabi") == ADDubai;
    assert rules.housingK.At(ADDubai, Married) == 60;
    assert rules.furnitureKOnce.At(ADDubai, Married) == 30;
    FmtAmtThousands(60);
    assert FmtAmt(60000) == "60,000" by { assert Decimal(60) == "60"; }
    FmtAmtThousands(30);
    assert FmtAmt(30000) == "30,000" by { assert Decimal(30) == "30"; }
  }
}
