/** The slice of JavaScript string behaviour the page script relies on. */
module JsString {

  /** Clamps an index into [0, len], as String.prototype.substring does with each argument. */
  function Clamp(k: int, len: nat): (r: nat)
    ensures r <= len
    ensures 0 <= k <= len ==> r == k
    ensures k < 0 ==> r == 0
    ensures len < k ==> r == len
  {
    if k < 0 then 0 else if len < k then len else k
  }

  /** String.prototype.substring(start, end): both arguments are clamped into
      [0, |s|] and swapped when they arrive in the wrong order, so it never fails. */
  function Substring(s: string, start: int, end: int): (r: string)
    ensures |r| <= |s|
    ensures 0 <= start <= end <= |s| ==> r == s[start..end]
    ensures start == 0 ==> r == s[..Clamp(end, |s|)]
    ensures Clamp(start, |s|) <= Clamp(end, |s|) ==> r == s[Clamp(start, |s|)..Clamp(end, |s|)]
    ensures Clamp(end, |s|) < Clamp(start, |s|) ==> r == s[Clamp(end, |s|)..Clamp(start, |s|)]
  {
    var a := Clamp(start, |s|);
    var b := Clamp(end, |s|);
    if a <= b then s[a..b] else s[b..a]
  }
}
