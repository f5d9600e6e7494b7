/**
 * The two scripts each write out the 90-day rule on their own. This module
 * states that, for the same age, they reach the same decision.
 */
module RotationPolicy {
  import opened Timestamps
  import CheckAmi
  import LatestAmi

  /**
   * An AMI that the audit lists in its rotation warning is exactly one whose
   * age would make the lookup print its too-old warning.
   */
  lemma AuditAgreesWithLookup(info: CheckAmi.InfoDict, id: string)
    requires CheckAmi.WellFormed(info)
    requires CheckAmi.Lookup(info, id).Some?
    ensures id in CheckAmi.Expired(info, RotationDays) <==>
      LatestAmi.VerdictFor(CheckAmi.Lookup(info, id).value.ageDays).TooOld?
  {
    CheckAmi.ExpiredIff(info, RotationDays, id);
  }
}
