/**
 * The pieces of the .NET base library the token provider leans on: the
 * exceptions it can end in, DateTime arithmetic, Encoding.ASCII and
 * String.Replace with an empty replacement.
 */
module Platform {
  import opened Wrappers

  /** The exceptions the token engine can raise, one constructor per cause. */
  datatype Fault =
    | ArgumentOutOfRange         // DateTime.AddMinutes left the range of DateTime
    | EmptyKey                   // SymmetricSecurityKey was given zero key bytes
    | ExpiresNotAfterNotBefore   // JwtSecurityToken was given notBefore >= expires
    | NotAJwt                    // JwtSecurityTokenHandler.ReadToken could not read the string
    | TokenIsInvalid             // TokenProvider.GetClaims: "Token is invalid"

  /** DateTime.MaxValue (9999-12-31T23:59:59.9999999) in whole seconds since 0001-01-01T00:00:00. */
  const MaxInstant: int := 315537897599

  /** A UTC DateTime, counted in whole seconds since 0001-01-01T00:00:00. */
  type Instant = t: int | 0 <= t <= MaxInstant

  const SecondsPerMinute: int := 60

  /** The range of a C# `int`. */
  type Int32 = x: int | -0x8000_0000 <= x < 0x8000_0000

  /**
   * DateTime.AddMinutes: the instant that lies the given number of minutes
   * later (earlier when negative); ArgumentOutOfRangeException when that
   * instant is outside the range of DateTime.
   */
  function AddMinutes(t: Instant, minutes: int): (r: Result<Instant, Fault>)
    ensures r.Success? <==> 0 <= t + minutes * SecondsPerMinute <= MaxInstant
    ensures r.Success? ==> r.value - t == minutes * SecondsPerMinute
    ensures r.Failure? ==> r.error == ArgumentOutOfRange
  {
    var u := t + minutes * SecondsPerMinute;
    if 0 <= u <= MaxInstant then Success(u) else Failure(ArgumentOutOfRange)
  }

  type Byte = b: int | 0 <= b < 256

  /** The byte Encoding.ASCII writes for a character it cannot encode: '?'. */
  const AsciiReplacement: Byte := 63

  /**
   * Encoding.ASCII.GetBytes: one byte per character; a character outside
   * 0..127 is replaced by '?'.
   */
  function AsciiBytes(s: string): (r: seq<Byte>)
    ensures |r| == |s|
    ensures forall i :: 0 <= i < |s| ==> r[i] < 128
    ensures forall i :: 0 <= i < |s| && (s[i] as int) < 128 ==> r[i] == s[i] as int
  {
    seq(|s|, i requires 0 <= i < |s| => if (s[i] as int) < 128 then s[i] as int else AsciiReplacement)
  }

  /** Two different secrets can give the same key bytes: every non-ASCII character becomes '?'. */
  lemma {:induction false} NonAsciiSecretsShareKeyBytes()
    ensures "paß" != "paç" && AsciiBytes("paß") == AsciiBytes("paç")
  {
    assert "paß"[2] != "paç"[2];
  }

  /**
   * s.Replace(pat, string.Empty): one left-to-right scan that drops every
   * non-overlapping occurrence of `pat`; the text left behind is not
   * scanned again.
   */
  function RemoveAll(s: string, pat: string): (r: string)
    requires |pat| > 0
    ensures |r| <= |s|
    ensures forall c :: c in r ==> c in s
    decreases |s|
  {
    if |s| < |pat| then s
    else if s[..|pat|] == pat then RemoveAll(s[|pat|..], pat)
    else [s[0]] + RemoveAll(s[1..], pat)
  }

  /** A string that lacks some character of `pat` has no occurrence of it and is left as it is. */
  lemma {:induction false} RemoveAllWithoutOccurrence(s: string, pat: string, c: char)
    requires |pat| > 0 && c in pat && c !in s
    ensures RemoveAll(s, pat) == s
    decreases |s|
  {
    if |s| >= |pat| {
      assert s[..|pat|] != pat;
      RemoveAllWithoutOccurrence(s[1..], pat, c);
      assert s == [s[0]] + s[1..];
    }
  }

  /** A leading occurrence is removed together with whatever the rest loses. */
  lemma {:induction false} RemoveAllLeading(pat: string, s: string)
    requires |pat| > 0
    ensures RemoveAll(pat + s, pat) == RemoveAll(s, pat)
  {
    assert (pat + s)[..|pat|] == pat;
    assert (pat + s)[|pat|..] == s;
  }

  /** The scan is a single pass: removing an inner occurrence can join a new one. */
  lemma {:induction false} RemoveAllIsOnePass()
    ensures RemoveAll("BeBearer arer ", "Bearer ") == "Bearer "
  {
    var pat := "Bearer ";
    assert "BeBearer arer "[..7][2] != pat[2];
    assert "BeBearer arer "[1..] == "eBearer arer ";
    assert "eBearer arer "[..7][0] != pat[0];
    assert "eBearer arer "[1..] == "Bearer arer ";
    assert "Bearer arer "[..7] == pat;
    assert "Bearer arer "[7..] == "arer ";
    assert RemoveAll("arer ", pat) == "arer ";
    assert RemoveAll("eBearer arer ", pat) == "e" + "arer ";
  }
}
