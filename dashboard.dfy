/**
 * The masking of emails in the dashboard's demo list of registered users
 * (frontend/dashboard.py, lines 112-118), lifted out of its rendering loop.
 */
module Dashboard {
  import opened Wrappers
  import opened PyText
  import Registration

  /**
   * The masked local part of line 115: its first and last characters when it
   * has more than two, otherwise its first. `None` is the IndexError that
   * `prefix[0]` raises on an empty local part.
   */
  function MaskLocal(prefix: string): (r: Option<string>)
    ensures r.None? <==> prefix == []
    ensures r.Some? ==> |r.value| == (if |prefix| > 2 then 2 else 1) && r.value[0] == prefix[0]
    ensures r.Some? ==> r.value[|r.value| - 1] == prefix[|prefix| - 1] || |prefix| == 2
    ensures r.Some? && |prefix| >= 2 ==> |r.value| < |prefix|
    ensures r.Some? ==> forall k | 0 <= k < |r.value| :: r.value[k] in prefix
  {
    if prefix == [] then None
    else if |prefix| > 2 then Some([prefix[0]] + "" + [prefix[|prefix| - 1]])
    else Some([prefix[0]] + "")
  }

  /**
   * Lines 113-118: an email without `@` is shown as it is; otherwise it is split
   * at its first `@` and shown as the masked local part, `@` and the domain.
   */
  function MaskEmail(email: string): (r: Option<string>)
    ensures Find(email, '@') < 0 ==> r == Some(email)
    ensures r.None? <==> Find(email, '@') == 0
    ensures Find(email, '@') > 0 ==>
              var at := Find(email, '@');
              r.Some? && MaskLocal(email[..at]).Some?
              && r.value == MaskLocal(email[..at]).value + "@" + email[at + 1..]
  {
    var at := Find(email, '@');
    if at < 0 then Some(email)
    else
      var prefix, domain := email[..at], email[at + 1..];
      match MaskLocal(prefix)
      case None => None
      case Some(masked) => Some(masked + "@" + domain)
  }

  /**
   * An email the registration page accepts is always masked: the result has
   * exactly one `@`, followed by the email's whole domain, and shows at most two
   * characters of the local part.
   */
  lemma MaskValidEmail(email: string)
    requires Registration.ValidEmail(Some(email))
    ensures MaskEmail(email).Some?
    ensures var at := Find(email, '@'); var r := MaskEmail(email).value;
      exists n | 1 <= n <= 2 ::
        && n < |r| && r[n] == '@' && r[n + 1..] == email[at + 1..]
        && forall k | 0 <= k < |r| && k != n :: r[k] != '@'
  {
    Registration.ValidEmailShape(Some(email));
    var at := Find(email, '@');
    var m := MaskLocal(email[..at]).value;
    var r := MaskEmail(email).value;
    var n := |m|;
    assert r == m + "@" + email[at + 1..];
    assert r[n] == '@' && r[n + 1..] == email[at + 1..];
    forall k | 0 <= k < |r| && k != n ensures r[k] != '@' {
      if k < n {
        assert m[k] in email[..at];
      } else {
        assert r[k] == email[at + 1 + (k - n - 1)];
      }
    }
  }
}
