/** The two StringUtil helpers the probes call. Their bodies are not part of
    this model; these definitions are the assumed behaviour. */
module StringUtil {
  import opened Results
  import opened JavaInt

  /** StringUtil.isEmpty, assumed to mean null or of length 0. The probes
      only pass it captured shell output, which is never null. */
  function IsEmpty(s: string): (b: bool)
    ensures b <==> s == ""
  {
    |s| == 0
  }

  /** StringUtil.getIntValue(s, fallback), assumed to be Integer.parseInt(s)
      with `fallback` where parseInt throws. */
  function GetIntValue(s: string, fallback: int): (r: int)
    ensures ParseInt(s).Some? ==> r == ParseInt(s).value
    ensures ParseInt(s).None? ==> r == fallback
  {
    match ParseInt(s)
    case Some(v) => v
    case None => fallback
  }
}
