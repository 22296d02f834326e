/**
 * The pure parts of the profile-picture upload: the extension taken from the
 * client's file name, the stored file name and the public URL.
 */
module Upload {
  import opened Wrappers
  import opened Text

  /** `String.lastIndexOf(char)`: the index of the last occurrence of `c`, or -1. */
  function LastIndexOf(s: string, c: char): (r: int)
    ensures -1 <= r < |s|
    ensures r >= 0 ==> s[r] == c
    ensures forall j :: r < j < |s| ==> s[j] != c
  {
    if s == [] then -1
    else if s[|s| - 1] == c then |s| - 1
    else LastIndexOf(s[..|s| - 1], c)
  }

  /**
   * The extension of the client's file name: everything from the last '.' on,
   * but only when that '.' is not the first character; otherwise nothing.
   */
  function FileExtension(name: string): (ext: string)
    ensures ext == "" || (|ext| < |name| && ext[0] == '.' && name == name[..|name| - |ext|] + ext)
    ensures forall j :: 0 < j < |ext| ==> ext[j] != '.'
  {
    var dot := LastIndexOf(name, '.');
    if dot > 0 then name[dot..] else ""
  }

  /** The name under which the upload is written: the random UUID text followed by the extension. */
  function StoredFileName(uuid: string, ext: string): string
  {
    uuid + ext
  }

  const UploadsPrefix: string := "/uploads/"
  const TimestampQuery: string := "?t="

  /** The public URL of a stored picture, with the millisecond clock reading as a cache-busting query. */
  function ProfilePictureUrl(fileName: string, millis: int): (url: string)
  {
    UploadsPrefix + fileName + TimestampQuery + IntToDecimal(millis)
  }

  /**
   * Reads a picture URL back into the stored file name and the clock reading.
   * The query starts at the LAST '?', so a file name that itself holds '?' is kept whole.
   */
  function ParseProfilePictureUrl(url: string): Option<(string, int)>
  {
    if |url| < |UploadsPrefix| || url[..|UploadsPrefix|] != UploadsPrefix then None
    else
      var q := LastIndexOf(url, '?');
      if q < |UploadsPrefix| || |url| < q + |TimestampQuery| || url[q..q + |TimestampQuery|] != TimestampQuery then None
      else match ParseInt(url[q + |TimestampQuery|..])
        case None => None
        case Some(millis) => Some((url[|UploadsPrefix|..q], millis))
  }

  /** A file name gets an extension exactly when it holds a '.' after its first character. */
  lemma ExtensionPresentIff(name: string)
    ensures FileExtension(name) != "" <==> exists j :: 0 < j < |name| && name[j] == '.'
  {
    var dot := LastIndexOf(name, '.');
    if j :| 0 < j < |name| && name[j] == '.' {
      assert dot >= j;
    }
  }

  /** "Hidden" names such as ".png", whose only '.' leads, get no extension. */
  lemma LeadingDotOnlyHasNoExtension(name: string)
    requires |name| >= 1 && name[0] == '.'
    requires forall j :: 0 < j < |name| ==> name[j] != '.'
    ensures FileExtension(name) == ""
  {
    ExtensionPresentIff(name);
  }

  /** With several dots, only the part after the last one is kept ("a.tar.gz" gives ".gz"). */
  lemma ExtensionIsLastDotSuffix(name: string, k: int)
    requires 0 < k < |name| && name[k] == '.'
    requires forall j :: k < j < |name| ==> name[j] != '.'
    ensures FileExtension(name) == name[k..]
  {
    var dot := LastIndexOf(name, '.');
    assert dot >= k;
  }

  /** Every picture URL starts with the uploads path and carries the clock reading in its query. */
  lemma UrlRoundTrip(fileName: string, millis: int)
    ensures var url := ProfilePictureUrl(fileName, millis);
      && url[..|UploadsPrefix|] == UploadsPrefix
      && ParseProfilePictureUrl(url) == Some((fileName, millis))
  {
    var url := ProfilePictureUrl(fileName, millis);
    var digits := IntToDecimal(millis);
    var q := |UploadsPrefix| + |fileName|;
    assert url == UploadsPrefix + fileName + TimestampQuery + digits;
    assert url[q] == '?';
    forall j | q < j < |url| ensures url[j] != '?' {
      if j >= q + |TimestampQuery| {
        assert url[j] == digits[j - q - |TimestampQuery|];
      }
    }
    assert LastIndexOf(url, '?') == q;
    assert url[..|UploadsPrefix|] == UploadsPrefix;
    assert url[q..q + |TimestampQuery|] == TimestampQuery;
    assert url[q + |TimestampQuery|..] == digits;
    assert url[|UploadsPrefix|..q] == fileName;
    IntRoundTrip(millis);
  }

  /**
   * A URL the parser accepts is the picture URL of what it reads exactly when
   * its query digits are canonical: the "?t=" digits fix the clock reading,
   * and no other spelling of the same number ("007", "-0") is produced.
   */
  lemma UrlParseInverts(url: string, fileName: string, millis: int)
    requires ParseProfilePictureUrl(url) == Some((fileName, millis))
    ensures |UploadsPrefix| + |fileName| + |TimestampQuery| <= |url|
    ensures ProfilePictureUrl(fileName, millis) == url
        <==> CanonicalInt(url[|UploadsPrefix| + |fileName| + |TimestampQuery|..])
  {
    var q := LastIndexOf(url, '?');
    var digits := url[q + |TimestampQuery|..];
    assert url == url[..|UploadsPrefix|] + url[|UploadsPrefix|..q] + url[q..q + |TimestampQuery|] + digits;
    assert url == UploadsPrefix + fileName + TimestampQuery + digits;
    if CanonicalInt(digits) {
      ParseIntCanonical(digits);
    }
    if ProfilePictureUrl(fileName, millis) == url {
      IntToDecimalCanonical(millis);
      assert digits == IntToDecimal(millis);
    }
  }

  /** Distinct stored names or clock readings give distinct picture URLs. */
  lemma ProfilePictureUrlInjective(f1: string, m1: int, f2: string, m2: int)
    requires ProfilePictureUrl(f1, m1) == ProfilePictureUrl(f2, m2)
    ensures f1 == f2 && m1 == m2
  {
    UrlRoundTrip(f1, m1);
    UrlRoundTrip(f2, m2);
  }
}
