/**
 * The short id the logistics-object list shows for a record: the last
 * path segment of its `@id`.
 */
module ListView {
  import opened MockStore

  /** Index of the last '/' in `uri`, or -1 when there is none. */
  function LastSlash(uri: string): (i: int)
    ensures -1 <= i < |uri|
    ensures i >= 0 ==> uri[i] == '/'
    ensures forall j :: i < j < |uri| ==> uri[j] != '/'
  {
    if |uri| == 0 then -1
    else if uri[|uri| - 1] == '/' then |uri| - 1
    else LastSlash(uri[..|uri| - 1])
  }

  /**
   * `uri.split('/').pop() || uri`: the text after the last '/' (all of
   * `uri` when it has none); when that text is empty, because `uri` ends
   * with '/' or is empty, the whole `uri`.
   */
  function ExtractId(uri: string): (id: string)
    ensures LastSlash(uri) + 1 < |uri| ==> id == uri[LastSlash(uri) + 1..]
    ensures LastSlash(uri) + 1 == |uri| ==> id == uri
  {
    var segment := uri[LastSlash(uri) + 1..];
    if segment == "" then uri else segment
  }

  /** A uri without '/' is its own id. */
  lemma ExtractIdNoSlash(uri: string)
    requires '/' !in uri
    ensures ExtractId(uri) == uri
  {
    assert LastSlash(uri) == -1;
  }

  /** The id has no '/' unless it is the whole uri, given back for an empty last segment. */
  lemma ExtractIdHasNoSlash(uri: string)
    ensures '/' in ExtractId(uri) ==> ExtractId(uri) == uri && LastSlash(uri) == |uri| - 1
  {
  }

  /** The id is a suffix of the uri. */
  lemma ExtractIdIsSuffix(uri: string)
    ensures |ExtractId(uri)| <= |uri| && uri[|uri| - |ExtractId(uri)|..] == ExtractId(uri)
  {
  }

  /** The last '/' of `base + s`, where `s` has none, is the last '/' of `base`. */
  lemma {:induction false} LastSlashAppend(base: string, s: string)
    requires '/' !in s
    ensures LastSlash(base + s) == LastSlash(base)
    decreases |s|
  {
    if |s| > 0 {
      var u := base + s;
      assert u[|u| - 1] == s[|s| - 1];
      assert u[..|u| - 1] == base + s[..|s| - 1];
      LastSlashAppend(base, s[..|s| - 1]);
    } else {
      assert base + s == base;
    }
  }

  /**
   * A short id without '/' and without "http" survives the trip through
   * the store: normalised to a full id, it is extracted again, and
   * normalising that gives the same full id.
   */
  lemma ExtractIdRoundTrip(s: string)
    requires |s| > 0 && '/' !in s && !Includes(s, Scheme)
    ensures ExtractId(NormalizeId(s)) == s
    ensures NormalizeId(ExtractId(NormalizeId(s))) == NormalizeId(s)
  {
    var full := Prefix + s;
    assert LastSlash(Prefix) == |Prefix| - 1;
    LastSlashAppend(Prefix, s);
    assert full[|Prefix|..] == s;
  }

  /** The list shows a created record by the decimal time of its creation. */
  lemma ExtractIdOfNewId(now: nat)
    ensures ExtractId(NewId(now)) == Decimal(now)
  {
    DecimalHasNoScheme(now);
    assert '/' !in Decimal(now);
    ExtractIdRoundTrip(Decimal(now));
  }
}
