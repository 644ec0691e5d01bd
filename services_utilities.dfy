/** Utilities.MaskString of src/Services/Utilities.cs: hides all but the last four characters
    of a secret before it is shown. A null string is None. */
module ServicesUtilities {
  import opened Wrappers

  /** new String(c, n): n copies of c. */
  function Repeat(c: char, n: nat): (r: string)
    ensures |r| == n && forall i :: 0 <= i < n ==> r[i] == c
  {
    seq(n, _ => c)
  }

  /** Null and empty strings come back unchanged, strings of one to four characters become
      "****", and longer strings keep their length and their last four characters, all the
      others becoming '*'. */
  function MaskString(input: Option<string>): (r: Option<string>)
    ensures IsNullOrEmpty(input) ==> r == input
    ensures input.Some? && 1 <= |input.value| <= 4 ==> r == Some("****")
    ensures input.Some? && |input.value| > 4 ==>
              var s := input.value;
              && r.Some? && |r.value| == |s|
              && r.value[|s| - 4..] == s[|s| - 4..]
              && forall i :: 0 <= i < |s| - 4 ==> r.value[i] == '*'
  {
    if IsNullOrEmpty(input) then input
    else
      var s := input.value;
      if |s| <= 4 then Some("****")
      else
        var r := Repeat('*', |s| - 4) + s[|s| - 4..];
        assert r[|s| - 4..] == s[|s| - 4..];
        Some(r)
  }

  /** Masking a masked string changes nothing. */
  lemma MaskStringIdempotent(input: Option<string>)
    ensures MaskString(MaskString(input)) == MaskString(input)
  {
    if input.Some? && |input.value| > 4 {
      var s, m := input.value, MaskString(input).value;
      var mm := MaskString(Some(m)).value;
      assert forall i :: 0 <= i < |m| ==> mm[i] == m[i] by {
        forall i | 0 <= i < |m| ensures mm[i] == m[i] {
          if i >= |m| - 4 {
            assert mm[i] == mm[|m| - 4..][i - (|m| - 4)];
            assert m[i] == m[|m| - 4..][i - (|m| - 4)];
          }
        }
      }
    }
  }

  /** The mask shows nothing but the length and the last four characters: two strings that
      agree on those are masked alike. */
  lemma MaskStringHidesPrefix(a: string, b: string)
    requires |a| == |b| > 4 && a[|a| - 4..] == b[|b| - 4..]
    ensures MaskString(Some(a)) == MaskString(Some(b))
  {
    var ma, mb := MaskString(Some(a)).value, MaskString(Some(b)).value;
    assert forall i :: 0 <= i < |ma| ==> ma[i] == mb[i] by {
      forall i | 0 <= i < |ma| ensures ma[i] == mb[i] {
        if i >= |a| - 4 {
          assert ma[i] == ma[|a| - 4..][i - (|a| - 4)];
          assert mb[i] == mb[|b| - 4..][i - (|b| - 4)];
        }
      }
    }
  }
}
