/** The `coefficient_labels` table: human-readable labels for coefficient
    codes, one table per group, with a fallback label for codes that are
    not in the table. Only representative entries of each table are kept;
    the lookups do not depend on the clinical text. */
module Labels {

  datatype Category = Interaction | Hcc | Demographic

  const INTERACTION_LABELS: map<string, string> := map[
    "DIABETES_HF_V28" := "Diabetes with Heart Failure",
    "HF_CHR_LUNG_V28" := "Heart Failure with Chronic Lung Disease",
    "HF_KIDNEY_V28" := "Heart Failure with Chronic Kidney Disease",
    "CHR_LUNG_CARD_RESP_FAIL_V28" := "Chronic Lung Disease with Cardiac or Respiratory Failure",
    "HF_HCC238_V28" := "Heart Failure with HCC238",
    "gSubUseDisorder_gPsych_V28" := "Substance Use Disorder with Psychosis",
    "D1" := "One payable HCC",
    "D2" := "Two payable HCCs",
    "D10P" := "Ten or more payable HCCs",
    "OriginallyDisabled_Male" := "Originally Disabled Male",
    "OriginallyDisabled_Female" := "Originally Disabled Female"
  ]

  const HCC_LABELS: map<string, string> := map[
    "1" := "HIV/AIDS",
    "2" := "Septicemia, Systemic Inflammatory Response Syndrome/Shock",
    "17" := "Cancer Metastatic to Lung, Liver, Brain, and Other Organs; Acute Myeloid Leukemia Except Promyelocytic",
    "37" := "Diabetes with Severe Acute Complications",
    "38" := "Diabetes with Glycemic, Unspecified, or No Complications",
    "48" := "Morbid Obesity",
    "224" := "Acute on Chronic Heart Failure",
    "226" := "Heart Failure, Except Endstage and Acute",
    "280" := "Chronic Obstructive Pulmonary Disease, Interstitial Lung Disorders, and Other Chronic Lung Disorders",
    "463" := "Artificial Openings for Feeding or Elimination"
  ]

  const DEMOGRAPHIC_LABELS: map<string, string> := map[
    "F0_34" := "Female, Age 0-34",
    "F65_69" := "Female, Age 65-69",
    "F70_74" := "Female, Age 70-74",
    "F95_GT" := "Female, Age 95+",
    "M0_34" := "Male, Age 0-34",
    "M65_69" := "Male, Age 65-69",
    "M70_74" := "Male, Age 70-74",
    "M95_GT" := "Male, Age 95+"
  ]

  /** The label given to a condition whose diagnosis source is not known. */
  const UNKNOWN_DX := "Unidentified Diagnosis Code"

  function Table(c: Category): map<string, string> {
    match c
    case Interaction => INTERACTION_LABELS
    case Hcc => HCC_LABELS
    case Demographic => DEMOGRAPHIC_LABELS
  }

  function Fallback(c: Category): string {
    match c
    case Interaction => "Unidentified Interaction"
    case Hcc => "Unidentified HCC"
    case Demographic => "Unidentified Demographic"
  }

  /** `coefficient_labels[category].get(code, fallback)`: never fails. */
  function Label(c: Category, code: string): (text: string)
    ensures code in Table(c) ==> text == Table(c)[code]
    ensures code !in Table(c) ==> text == Fallback(c)
  {
    if code in Table(c) then Table(c)[code] else Fallback(c)
  }

  /** No entry of a table carries its group's fallback label, so a label is
      the fallback exactly when the code is unknown. */
  lemma FallbackMeansUnknown(c: Category, code: string)
    ensures Label(c, code) == Fallback(c) <==> code !in Table(c)
  {
  }
}
