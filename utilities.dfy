/** Utilities.maskString of src/Utilities.cs, which has the same text as MaskString in
    src/Services/Utilities.cs and is defined by it. */
module Utilities {
  import opened Wrappers
  import ServicesUtilities

  /** Null and empty strings come back unchanged, strings of one to four characters become
      "****", and longer strings keep their length and their last four characters, all the
      others becoming '*'. */
  function MaskString(input: Option<string>): (r: Option<string>)
    ensures IsNullOrEmpty(input) ==> r == input
    ensures input.Some? && 1 <= |input.value| <= 4 ==> r == Some("****")
    ensures input.Some? && |input.value| > 4 ==>
              var s := input.value;
              && r.Some? && |r.value| == |s|
              && r.value[|s| - 4..] == s[|s| - 4..]
              && forall i :: 0 <= i < |s| - 4 ==> r.value[i] == '*'
  {
    ServicesUtilities.MaskString(input)
  }

  /** Masking a masked string changes nothing. */
  lemma MaskStringIdempotent(input: Option<string>)
    ensures MaskString(MaskString(input)) == MaskString(input)
  {
    ServicesUtilities.MaskStringIdempotent(input);
  }
}
