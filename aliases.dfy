/** The two alias maps (lower-cased raw header to canonical name) and what normalising with them
    does to a few concrete header rows. */
module Aliases {
  import opened Strings
  import opened Tables
  import opened Columns

  /** `CPSC_COL_ALIASES`: headers seen across vintages of the monthly enrollment extract. */
  const CpscAliases: map<string, string> := map[
    "contract_number" := "Contract_ID",
    "contract number" := "Contract_ID",
    "h_number" := "Contract_ID",
    "h number" := "Contract_ID",
    "plan_id" := "Plan_ID",
    "plan id" := "Plan_ID",
    "plan_identifier" := "Plan_ID",
    "segment_id" := "Segment_ID",
    "segment id" := "Segment_ID",
    "organization_name" := "Org_Name",
    "organization name" := "Org_Name",
    "organization_marketing_name" := "Org_Name",
    "organization marketing name" := "Org_Name",
    "contract_name" := "Org_Name",
    "contract name" := "Org_Name",
    "state" := "State",
    "state_code" := "State",
    "state code" := "State",
    "ssa_state_code" := "State_SSA",
    "county" := "County",
    "county_name" := "County",
    "county name" := "County",
    "ssa_county_code" := "County_SSA",
    "ssa_state_county_code" := "SSA_Code",
    "ssa state county code" := "SSA_Code",
    "fips_state_county_code" := "FIPS",
    "plan_type" := "Plan_Type",
    "plan type" := "Plan_Type",
    "type_of_medicare_health_plan" := "Plan_Type",
    "type of medicare health plan" := "Plan_Type",
    "enrollment" := "Enrollment",
    "total_enrollment" := "Enrollment",
    "total enrollment" := "Enrollment",
    "enrolled" := "Enrollment"
  ]

  /** `PLANDIR_COL_ALIASES`: headers of the plan directory. */
  const PlandirAliases: map<string, string> := map[
    "contract_number" := "Contract_ID",
    "contract number" := "Contract_ID",
    "h_number" := "Contract_ID",
    "h number" := "Contract_ID",
    "contract_id" := "Contract_ID",
    "organization_name" := "Org_Name",
    "organization name" := "Org_Name",
    "contract_name" := "Org_Name",
    "contract name" := "Org_Name",
    "parent_organization" := "Parent_Org",
    "parent organization" := "Parent_Org",
    "parent_org" := "Parent_Org",
    "parent org" := "Parent_Org",
    "plan_type" := "Plan_Type",
    "plan type" := "Plan_Type"
  ]

  /** A name that ends in a character other than a digit carries no numeric tag. */
  lemma NoTagWhenLastNotDigit(t: string, sep: string)
    requires t != [] && !IsDigit(t[|t| - 1])
    ensures !HasTag(t, sep)
  {
  }

  /** A guarantee stated key by key holds for every value of the map. */
  lemma ValuesUntagged(m: map<string, string>)
    requires forall k | k in m :: !HasTag(m[k], FinalSeparator)
    ensures forall t | t in m.Values :: !HasTag(t, FinalSeparator)
  {
    forall t | t in m.Values ensures !HasTag(t, FinalSeparator) {
      var k :| k in m && m[k] == t;
    }
  }

  /** No canonical name of the enrollment aliases ends in `_<digits>`, so the uniqueness guarantee
      of `_normalise_cols` applies to them. */
  lemma CpscTargetsUntagged()
    ensures forall t | t in CpscAliases.Values :: !HasTag(t, FinalSeparator)
  {
    forall k | k in CpscAliases ensures !HasTag(CpscAliases[k], FinalSeparator) {
      var t := CpscAliases[k];
      assert t != [] && !IsDigit(t[|t| - 1]);
      NoTagWhenLastNotDigit(t, FinalSeparator);
    }
    ValuesUntagged(CpscAliases);
  }

  /** The same for the plan-directory aliases. */
  lemma PlandirTargetsUntagged()
    ensures forall t | t in PlandirAliases.Values :: !HasTag(t, FinalSeparator)
  {
    forall k | k in PlandirAliases ensures !HasTag(PlandirAliases[k], FinalSeparator) {
      var t := PlandirAliases[k];
      assert t != [] && !IsDigit(t[|t| - 1]);
      NoTagWhenLastNotDigit(t, FinalSeparator);
    }
    ValuesUntagged(PlandirAliases);
  }
}

/** What normalising with the enrollment aliases does to particular header rows. */
module AliasExamples {
  import opened Strings
  import opened Tables
  import opened Columns
  import opened Aliases

  /** A label whose key the map sends to the name `t` resolves to `t`. */
  lemma TargetVia(m: map<string, string>, name: string, key: string, t: string)
    requires key == Lower(Trim(name)) && key in m && m[key] == t && t != ""
    ensures Target(m, name) == t
  {
    TargetByKey(m, name, key);
  }

  lemma CpscTargetMissing(name: string, key: string)
    requires key == Lower(Trim(name)) && key !in CpscAliases
    requires |key| < 2 || key[|key| - 2] != 'p'
    ensures Target(CpscAliases, name) == ""
  {
    StripDupFromNoop(key, 2);
    TargetByBase(CpscAliases, name, key, key);
  }

  lemma TargetCountySsa()
    ensures Target(CpscAliases, "County_SSA") == ""
  {
    KeyCountySsa();
    assert "county_ssa" !in CpscAliases;
    CpscTargetMissing("County_SSA", "county_ssa");
  }

  lemma KeyCountySsa2()
    ensures Lower(Trim("County_SSA_2")) == "county_ssa_2"
  {
    TrimNoop("County_SSA_2");
    LowerEq("County_SSA_2", "county_ssa_2");
  }

  lemma KeyCountySsa()
    ensures Lower(Trim("County_SSA")) == "county_ssa"
  {
    TrimNoop("County_SSA");
    LowerEq("County_SSA", "county_ssa");
  }

  lemma TargetCountySsa2()
    ensures Target(CpscAliases, "County_SSA_2") == ""
  {
    KeyCountySsa2();
    assert "county_ssa_2" !in CpscAliases;
    CpscTargetMissing("County_SSA_2", "county_ssa_2");
  }

  lemma KeySsaCountyCode()
    ensures Lower(Trim("ssa_county_code")) == "ssa_county_code"
  {
    TrimNoop("ssa_county_code");
    LowerEq("ssa_county_code", "ssa_county_code");
  }

  lemma TargetSsaCountyCode()
    ensures Target(CpscAliases, "ssa_county_code") == "County_SSA"
  {
    KeySsaCountyCode();
    assert CpscAliases["ssa_county_code"] == "County_SSA";
    TargetVia(CpscAliases, "ssa_county_code", "ssa_county_code", "County_SSA");
  }

  lemma CountySsaTargets()
    ensures Targets(["County_SSA", "ssa_county_code", "County_SSA_2"], CpscAliases) == ["", "County_SSA", ""]
  {
    TargetCountySsa();
    TargetSsaCountyCode();
    TargetCountySsa2();
    TargetsOfTriple(CpscAliases, "County_SSA", "ssa_county_code", "County_SSA_2");
  }

  lemma CountySsaTrimmed()
    ensures Trim("County_SSA") == "County_SSA"
    ensures Trim("ssa_county_code") == "ssa_county_code"
    ensures Trim("County_SSA_2") == "County_SSA_2"
  {
    KeyCountySsa();
    KeySsaCountyCode();
    KeyCountySsa2();
  }

  /** The three labels differ, and the third is the first tagged `_2`. */
  lemma CountySsaDistinct()
    ensures "County_SSA" != "ssa_county_code" && "ssa_county_code" != "County_SSA_2"
    ensures "County_SSA" != "County_SSA_2"
    ensures "County_SSA_2" == "County_SSA" + "_2"
  {
    assert "County_SSA"[0] != "ssa_county_code"[0];
    assert "ssa_county_code"[0] != "County_SSA_2"[0];
    assert |"County_SSA"| != |"County_SSA_2"|;
  }

  lemma CountySsaDedup()
    ensures Dedup(["County_SSA", "ssa_county_code", "County_SSA_2"]) == ["County_SSA", "ssa_county_code", "County_SSA_2"]
  {
    CountySsaTrimmed();
    CountySsaDistinct();
    DedupOfTriple("County_SSA", "ssa_county_code", "County_SSA_2");
  }

  lemma CountySsa()
    ensures NormaliseCols(["County_SSA", "ssa_county_code", "County_SSA_2"], CpscAliases)
            == ["County_SSA", "County_SSA_2", "County_SSA_2"]
    ensures !NoDuplicates(NormaliseCols(["County_SSA", "ssa_county_code", "County_SSA_2"], CpscAliases))
  {
    CountySsaDedup();
    CountySsaTargets();
    CountySsaDistinct();
    DuplicateSurvives(CpscAliases, "County_SSA", "ssa_county_code", "County_SSA_2");
  }

  lemma KeyContractNumber()
    ensures Trim("contract_number") == "contract_number" && Lower(Trim("contract_number")) == "contract_number"
  {
    TrimNoop("contract_number");
    LowerEq("contract_number", "contract_number");
  }

  lemma KeyHNumber()
    ensures Trim("h_number") == "h_number" && Lower(Trim("h_number")) == "h_number"
  {
    TrimNoop("h_number");
    LowerEq("h_number", "h_number");
  }

  lemma KeyContractId()
    ensures Trim("Contract_ID") == "Contract_ID" && Lower(Trim("Contract_ID")) == "contract_id"
  {
    TrimNoop("Contract_ID");
    LowerEq("Contract_ID", "contract_id");
  }

  /** The labels differ, also after tagging `Contract_ID` with `_2`. */
  lemma ContractLabelsDistinct()
    ensures "contract_number" != "h_number" && "Contract_ID" != "h_number"
    ensures "h_number" != "Contract_ID" + "_2"
    ensures "Contract_ID" + "_2" == "Contract_ID_2"
  {
    assert "contract_number"[0] != "h_number"[0];
    assert "Contract_ID"[0] != "h_number"[0];
    assert ("Contract_ID" + "_2")[0] != "h_number"[0];
  }

  lemma TargetContractNumber()
    ensures Target(CpscAliases, "contract_number") == "Contract_ID"
  {
    KeyContractNumber();
    assert CpscAliases["contract_number"] == "Contract_ID";
    TargetVia(CpscAliases, "contract_number", "contract_number", "Contract_ID");
  }

  lemma TargetHNumber()
    ensures Target(CpscAliases, "h_number") == "Contract_ID"
  {
    KeyHNumber();
    assert CpscAliases["h_number"] == "Contract_ID";
    TargetVia(CpscAliases, "h_number", "h_number", "Contract_ID");
  }

  lemma TargetContractId()
    ensures Target(CpscAliases, "Contract_ID") == ""
  {
    KeyContractId();
    assert "contract_id" !in CpscAliases;
    CpscTargetMissing("Contract_ID", "contract_id");
  }

  lemma ContractLabelsTrimmed()
    ensures Trim("contract_number") == "contract_number"
    ensures Trim("h_number") == "h_number"
    ensures Trim("Contract_ID") == "Contract_ID"
  {
    KeyContractNumber();
    KeyHNumber();
    KeyContractId();
  }

  /** The enrollment aliases send both `contract_number` and `h_number` to `Contract_ID`, but do not
      hold `contract_id` itself: normalising `[contract_number, h_number]` gives
      `[Contract_ID, h_number]`, and normalising that again renames `h_number` too. */
  lemma ContractNumberTwice()
    ensures NormaliseCols(["contract_number", "h_number"], CpscAliases) == ["Contract_ID", "h_number"]
    ensures NormaliseCols(NormaliseCols(["contract_number", "h_number"], CpscAliases), CpscAliases)
            == ["Contract_ID", "Contract_ID_2"]
  {
    TargetContractNumber();
    TargetHNumber();
    TargetContractId();
    ContractLabelsTrimmed();
    ContractLabelsDistinct();
    NormaliseOnce(CpscAliases, "contract_number", "h_number", "Contract_ID");
    NormaliseTwice(CpscAliases, "contract_number", "h_number", "Contract_ID");
  }
}
