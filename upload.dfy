/** The upload middleware: the image-type filter and the rule that names a
    stored file. `path.extname` and `Date.now()` are inputs. */
module Upload {

  /** Where every accepted file is stored. */
  const Destination: string := "uploads/"

  const RejectionMessage: string := "กรุณาอัปโหลดเฉพาะไฟล์รูปภาพ (jpg, jpeg, png) เท่านั้น!"

  datatype Verdict = Accept | Reject(message: string)

  /** `toLowerCase` on the ASCII letters. No other character lower-cases to
      one of the letters of "jpg", "jpeg" or "png", so the filter's verdict
      is the same as with full Unicode case mapping. */
  function LowerChar(c: char): char
  {
    if 'A' <= c <= 'Z' then (c as int + 32) as char else c
  }

  function Lower(s: string): (r: string)
    ensures |r| == |s|
    ensures forall i :: 0 <= i < |s| ==> r[i] == LowerChar(s[i])
  {
    seq(|s|, i requires 0 <= i < |s| => LowerChar(s[i]))
  }

  predicate StartsWith(s: string, pat: string)
  {
    |pat| <= |s| && s[..|pat|] == pat
  }

  /** An unanchored regular-expression search for a literal: some suffix
      of `s` starts with `pat`. */
  predicate Contains(s: string, pat: string)
    ensures Contains(s, pat) ==> |pat| <= |s|
    ensures pat == [] ==> Contains(s, pat)
    decreases |s|
  {
    StartsWith(s, pat) || (s != [] && Contains(s[1..], pat))
  }

  predicate OccursAt(s: string, pat: string, i: int)
  {
    0 <= i && i + |pat| <= |s| && s[i..i + |pat|] == pat
  }

  /** The search finds `pat` exactly when it occurs at some position. */
  lemma {:induction false} ContainsIff(s: string, pat: string)
    ensures Contains(s, pat) <==> exists i :: OccursAt(s, pat, i)
    decreases |s|
  {
    if StartsWith(s, pat) {
      assert OccursAt(s, pat, 0);
    }
    if s != [] {
      ContainsIff(s[1..], pat);
      if Contains(s[1..], pat) {
        var i :| OccursAt(s[1..], pat, i);
        assert s[i + 1..i + 1 + |pat|] == s[1..][i..i + |pat|];
        assert OccursAt(s, pat, i + 1);
      }
      if i :| OccursAt(s, pat, i) {
        if i > 0 {
          assert s[1..][i - 1..i - 1 + |pat|] == s[i..i + |pat|];
          assert OccursAt(s[1..], pat, i - 1);
        } else {
          assert StartsWith(s, pat);
        }
      }
    } else {
      if i :| OccursAt(s, pat, i) {
        assert StartsWith(s, pat);
      }
    }
  }

  /** `/jpg|jpeg|png/.test(s)`. */
  predicate MatchesImageType(s: string)
  {
    Contains(s, "jpg") || Contains(s, "jpeg") || Contains(s, "png")
  }

  /** The file filter: the lower-cased extension and the mimetype, as given,
      must both match the image pattern. */
  function CheckFileType(extension: string, mimetype: string): (v: Verdict)
    ensures v == Accept <==>
      (exists i :: OccursAt(Lower(extension), "jpg", i) || OccursAt(Lower(extension), "jpeg", i) || OccursAt(Lower(extension), "png", i))
      && (exists i :: OccursAt(mimetype, "jpg", i) || OccursAt(mimetype, "jpeg", i) || OccursAt(mimetype, "png", i))
    ensures v != Accept ==> v == Reject(RejectionMessage)
  {
    var ext := Lower(extension);
    ContainsIff(ext, "jpg"); ContainsIff(ext, "jpeg"); ContainsIff(ext, "png");
    ContainsIff(mimetype, "jpg"); ContainsIff(mimetype, "jpeg"); ContainsIff(mimetype, "png");
    if MatchesImageType(ext) && MatchesImageType(mimetype) then Accept else Reject(RejectionMessage)
  }

  /** The extension test ignores case: lower-casing the extension first
      changes no verdict. */
  lemma ExtensionCaseInsensitive(extension: string, mimetype: string)
    ensures CheckFileType(Lower(extension), mimetype) == CheckFileType(extension, mimetype)
  {
    assert Lower(Lower(extension)) == Lower(extension);
  }

  /** The search is unanchored: an extension that merely contains "png"
      passes, and an upper-case extension passes. */
  lemma UnanchoredAndCaseFolded()
    ensures CheckFileType(".pngx", "image/png") == Accept
    ensures CheckFileType(".JPG", "image/jpeg") == Accept
  {
    assert OccursAt(Lower(".pngx"), "png", 1);
    assert OccursAt("image/png", "png", 6);
    assert Lower(".JPG") == ".jpg";
    assert OccursAt(Lower(".JPG"), "jpg", 1);
    assert OccursAt("image/jpeg", "jpeg", 6);
  }

  /** A string the search finds `pat` in holds `pat`'s first character. */
  lemma {:induction false} ContainsFirstChar(s: string, pat: string)
    requires pat != [] && Contains(s, pat)
    ensures pat[0] in s
    decreases |s|
  {
    if !StartsWith(s, pat) {
      ContainsFirstChar(s[1..], pat);
    }
  }

  /** The mimetype test does not ignore case. */
  lemma MimetypeCaseSensitive()
    ensures CheckFileType(".png", "IMAGE/PNG") == Reject(RejectionMessage)
  {
    var m := "IMAGE/PNG";
    assert 'j' !in m && 'p' !in m;
    if Contains(m, "jpg") { ContainsFirstChar(m, "jpg"); }
    if Contains(m, "jpeg") { ContainsFirstChar(m, "jpeg"); }
    if Contains(m, "png") { ContainsFirstChar(m, "png"); }
  }

  function DigitChar(d: nat): char
    requires d < 10
  {
    (('0' as int) + d) as char
  }

  predicate AllDigits(s: string)
  {
    forall i :: 0 <= i < |s| ==> '0' <= s[i] <= '9'
  }

  /** `String(n)` for a natural number: decimal digits, no leading zero. */
  function Decimal(n: nat): (r: string)
    ensures |r| >= 1
  {
    if n < 10 then [DigitChar(n)] else Decimal(n / 10) + [DigitChar(n % 10)]
  }

  lemma {:induction false} DecimalDigits(n: nat)
    ensures AllDigits(Decimal(n))
  {
    if n >= 10 {
      DecimalDigits(n / 10);
    }
  }

  /** Only zero is written with a leading `0`. */
  lemma {:induction false} DecimalNoLeadingZero(n: nat)
    ensures Decimal(n)[0] == '0' <==> n == 0
  {
    if n >= 10 {
      DecimalNoLeadingZero(n / 10);
      assert Decimal(n)[0] == Decimal(n / 10)[0];
    }
  }

  /** The number a string of decimal digits denotes. */
  function DecimalValue(s: string): nat
    requires AllDigits(s)
  {
    if s == [] then 0 else DecimalValue(s[..|s| - 1]) * 10 + (s[|s| - 1] as int - '0' as int)
  }

  lemma {:induction false} DecimalRoundTrip(n: nat)
    ensures AllDigits(Decimal(n)) && DecimalValue(Decimal(n)) == n
  {
    DecimalDigits(n);
    if n >= 10 {
      DecimalRoundTrip(n / 10);
      var r := Decimal(n);
      assert r[..|r| - 1] == Decimal(n / 10);
    }
  }

  /** What the storage engine knows of an uploaded file. */
  datatype UploadedFile = UploadedFile(fieldname: string, extension: string, timestamp: nat)

  /** `fieldname-timestamp.extension`. */
  function StoredFilename(f: UploadedFile): (name: string)
    ensures |name| == |f.fieldname| + 1 + |Decimal(f.timestamp)| + |f.extension|
    ensures name[..|f.fieldname|] == f.fieldname && name[|f.fieldname|] == '-'
    ensures name[|name| - |f.extension|..] == f.extension
  {
    f.fieldname + "-" + Decimal(f.timestamp) + f.extension
  }

  /** multer's `file.path`: the destination followed by the stored filename. */
  function StoredPath(f: UploadedFile): (path: string)
    ensures |path| > |Destination|
    ensures path[..|Destination|] == Destination && path[|Destination|..] == StoredFilename(f)
  {
    Destination + StoredFilename(f)
  }

  /** The stored name keeps the field name and the extension and encodes the
      timestamp in between, so the timestamp can be read back. */
  lemma StoredFilenameRoundTrip(f: UploadedFile)
    ensures var name, k := StoredFilename(f), |f.fieldname| + 1;
      k <= |name| - |f.extension| && name[..k] == f.fieldname + "-"
      && name[|name| - |f.extension|..] == f.extension
      && AllDigits(name[k..|name| - |f.extension|])
      && DecimalValue(name[k..|name| - |f.extension|]) == f.timestamp
  {
    var name, k := StoredFilename(f), |f.fieldname| + 1;
    assert name[k..|name| - |f.extension|] == Decimal(f.timestamp);
    DecimalRoundTrip(f.timestamp);
  }

  /** Every stored path lies in the destination directory. */
  lemma StoredPathInDestination(f: UploadedFile)
    ensures StoredPath(f)[..|Destination|] == Destination
  {
  }
}
