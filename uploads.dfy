/** The image-upload checks shared by profile editing and recipe
    creation: which file names are accepted and the names the uploads are
    stored under. */
module Uploads {
  import opened Common
  import Text

  /** The accepted (lower-cased) extensions. */
  const ImageExtensions: seq<string> := [".png", ".jpg", ".jpeg", ".webp"]

  /** `s.rfind(c)`: the last position holding `c`, or -1. */
  function LastIndexOf(s: string, c: char): (k: int)
    ensures -1 <= k < |s|
    ensures k >= 0 ==> s[k] == c
    ensures forall i :: k < i < |s| ==> s[i] != c
  {
    if s == [] then -1
    else if s[|s| - 1] == c then |s| - 1
    else LastIndexOf(s[..|s| - 1], c)
  }

  /** Every character of `s[lo..hi]` is a dot (vacuously so when empty). */
  predicate DotsOnly(s: string, lo: nat, hi: nat)
    requires lo <= hi <= |s|
    decreases hi - lo
  {
    lo == hi || (s[lo] == '.' && DotsOnly(s, lo + 1, hi))
  }

  /** `os.path.splitext(path)[1]` for a POSIX path: from the last dot of
      the last path component to the end, provided something other than
      dots precedes that dot in the component; otherwise empty. */
  function Extension(path: string): (ext: string)
    ensures ext == [] || (ext[0] == '.' && |ext| <= |path| && ext == path[|path| - |ext|..])
    ensures forall i :: 0 < i < |ext| ==> ext[i] != '.' && ext[i] != '/'
  {
    var slashAt := LastIndexOf(path, '/');
    var dotAt := LastIndexOf(path, '.');
    if dotAt > slashAt && !DotsOnly(path, slashAt + 1, dotAt) then path[dotAt..] else []
  }

  lemma {:induction false} DotsOnlyMeans(s: string, lo: nat, hi: nat)
    requires lo <= hi <= |s|
    ensures DotsOnly(s, lo, hi) <==> forall i :: lo <= i < hi ==> s[i] == '.'
    decreases hi - lo
  {
    if lo < hi {
      DotsOnlyMeans(s, lo + 1, hi);
    }
  }

  /** A file name (no slash) whose stem holds something other than a dot,
      followed by a dotted suffix, has that suffix as its extension, however
      many dots the stem holds: "photo.final.jpg" has ".jpg". */
  lemma ExtensionOfSuffixed(stem: string, k: nat, ext: string)
    requires '/' !in stem && k < |stem| && stem[k] != '.'
    requires ext != [] && ext[0] == '.' && '.' !in ext[1..] && '/' !in ext
    ensures Extension(stem + ext) == ext
  {
    var path := stem + ext;
    assert path[|stem|] == '.';
    assert forall i :: |stem| < i < |path| ==> path[i] == ext[1..][i - |stem| - 1];
    assert forall i :: 0 <= i < |path| ==> path[i] != '/';
    assert LastIndexOf(path, '.') == |stem|;
    DotsOnlyMeans(path, 0, |stem|);
    assert path[k] == stem[k];
    assert path[|stem|..] == ext;
  }

  /** A file name made of dots only (possibly none) followed by a dotted
      suffix has no extension: `splitext` treats the leading dots as part
      of the stem, so ".png" and "..png" have none. */
  lemma ExtensionOfLeadingDots(dots: string, ext: string)
    requires forall i :: 0 <= i < |dots| ==> dots[i] == '.'
    requires ext != [] && ext[0] == '.' && '.' !in ext[1..] && '/' !in ext
    ensures Extension(dots + ext) == []
  {
    var path := dots + ext;
    assert path[|dots|] == '.';
    assert forall i :: |dots| < i < |path| ==> path[i] == ext[1..][i - |dots| - 1];
    assert forall i :: 0 <= i < |dots| ==> path[i] == dots[i];
    assert forall i :: 0 <= i < |path| ==> path[i] != '/';
    assert LastIndexOf(path, '.') == |dots|;
    DotsOnlyMeans(path, 0, |dots|);
  }

  /** The extension `edit_profile` and `create_recipe` test: the lower-cased
      `splitext` extension of the sanitised name, when it is an image one. */
  function ImageExtension(securedName: string): (r: Option<string>)
    ensures r.Some? <==> Text.Lower(Extension(securedName)) in ImageExtensions
    ensures r.Some? ==> r.value in ImageExtensions
  {
    var ext := Text.Lower(Extension(securedName));
    if ext in ImageExtensions then Some(ext) else None
  }

  /** The outcome of an optional image field: nothing uploaded, an
      unsupported type (the handler redirects with a notice), or the name
      the file is saved under. */
  datatype Upload = NoFile | Unsupported | Saved(fileName: string)

  /** `if avatar and avatar.filename:` ... `avatar_name = f"user_{id}{ext}"`.
      `rawName` is the client's file name (absent or empty: no upload),
      `securedName` what `secure_filename` made of it. */
  function AvatarUpload(userId: nat, rawName: Option<string>, securedName: string): (u: Upload)
    ensures u.NoFile? <==> rawName.GetOr([]) == []
    ensures u.Unsupported? <==> rawName.GetOr([]) != [] && ImageExtension(securedName).None?
  {
    if rawName.GetOr([]) == [] then NoFile
    else match ImageExtension(securedName)
      case None => Unsupported
      case Some(ext) => Saved("user_" + (Text.Decimal(userId) + ext))
  }

  /** `if photo and photo.filename:` ...
      `image_url = f"recipe_{id}_{int(now)}{ext}"`, with `now` the clock's
      whole seconds. */
  function RecipePhotoUpload(userId: nat, now: nat, rawName: Option<string>, securedName: string): (u: Upload)
    ensures u.NoFile? <==> rawName.GetOr([]) == []
    ensures u.Unsupported? <==> rawName.GetOr([]) != [] && ImageExtension(securedName).None?
  {
    if rawName.GetOr([]) == [] then NoFile
    else match ImageExtension(securedName)
      case None => Unsupported
      case Some(ext) => Saved("recipe_" + (Text.Decimal(userId) + ("_" + (Text.Decimal(now) + ext))))
  }

  /** A string of digits followed by a suffix starting with a non-digit can
      be taken apart in only one way. */
  lemma DigitsThenSuffix(d1: string, e1: string, d2: string, e2: string)
    requires Text.AllDigits(d1) && Text.AllDigits(d2)
    requires e1 != [] && !Text.IsDigit(e1[0]) && e2 != [] && !Text.IsDigit(e2[0])
    requires d1 + e1 == d2 + e2
    ensures d1 == d2 && e1 == e2
  {
    var m := if |d1| < |d2| then |d1| else |d2|;
    assert (d1 + e1)[m] == (d2 + e2)[m];
    assert |d1| == |d2|;
    assert d1 == (d1 + e1)[..|d1|] && e1 == (d1 + e1)[|d1|..];
  }

  /** A string of digits holds no character that is not a digit. */
  lemma DigitsAvoid(d: string, c: char)
    requires Text.AllDigits(d) && !Text.IsDigit(c)
    ensures c !in d
  {
    assert forall i :: 0 <= i < |d| ==> d[i] != c;
  }

  /** `str` on naturals is injective. */
  lemma DecimalInjective(a: nat, b: nat)
    requires Text.Decimal(a) == Text.Decimal(b)
    ensures a == b
  {
  }

  /** A lower-case extension from the list has no upper-case letters, no
      further dot and no slash. */
  lemma ImageExtensionShape(ext: string)
    requires ext in ImageExtensions
    ensures ext != [] && ext[0] == '.' && '.' !in ext[1..] && '/' !in ext
    ensures Text.Lower(ext) == ext
  {
  }

  /** The avatar names of two users differ. */
  lemma AvatarNameInjective(u1: nat, e1: string, u2: nat, e2: string)
    requires e1 in ImageExtensions && e2 in ImageExtensions
    requires "user_" + (Text.Decimal(u1) + e1) == "user_" + (Text.Decimal(u2) + e2)
    ensures u1 == u2
  {
    var d1, d2 := Text.Decimal(u1), Text.Decimal(u2);
    ImageExtensionShape(e1);
    ImageExtensionShape(e2);
    assert d1 + e1 == ("user_" + (d1 + e1))[5..];
    assert d2 + e2 == ("user_" + (d2 + e2))[5..];
    DigitsThenSuffix(d1, e1, d2, e2);
    DecimalInjective(u1, u2);
  }

  /** An avatar name has the image extension it was built with. */
  lemma AvatarNameExtension(u: nat, e: string)
    requires e in ImageExtensions
    ensures ImageExtension("user_" + (Text.Decimal(u) + e)) == Some(e)
  {
    var d := Text.Decimal(u);
    ImageExtensionShape(e);
    DigitsAvoid(d, '/');
    var stem := "user_" + d;
    assert stem + e == "user_" + (d + e);
    assert stem[0] == 'u';
    ExtensionOfSuffixed(stem, 0, e);
  }

  /** A saved avatar belongs to one user only (one user's upload never
      overwrites another's), and the stored name passes the same
      extension check again. */
  lemma AvatarNames(u1: nat, r1: Option<string>, s1: string, u2: nat, r2: Option<string>, s2: string)
    requires AvatarUpload(u1, r1, s1).Saved? && AvatarUpload(u2, r2, s2).Saved?
    ensures AvatarUpload(u1, r1, s1) == AvatarUpload(u2, r2, s2) ==> u1 == u2
    ensures ImageExtension(AvatarUpload(u1, r1, s1).fileName) == ImageExtension(s1)
  {
    var e1 := ImageExtension(s1).value;
    var e2 := ImageExtension(s2).value;
    if AvatarUpload(u1, r1, s1) == AvatarUpload(u2, r2, s2) {
      AvatarNameInjective(u1, e1, u2, e2);
    }
    AvatarNameExtension(u1, e1);
  }

  /** Two saved recipe photos get the same name exactly when they come from
      the same user in the same second with the same extension: a second
      upload within that second replaces the first file. */
  lemma RecipePhotoNames(u1: nat, t1: nat, r1: Option<string>, s1: string,
                         u2: nat, t2: nat, r2: Option<string>, s2: string)
    requires RecipePhotoUpload(u1, t1, r1, s1).Saved? && RecipePhotoUpload(u2, t2, r2, s2).Saved?
    ensures RecipePhotoUpload(u1, t1, r1, s1) == RecipePhotoUpload(u2, t2, r2, s2)
        <==> u1 == u2 && t1 == t2 && ImageExtension(s1) == ImageExtension(s2)
  {
    var e1 := ImageExtension(s1).value;
    var e2 := ImageExtension(s2).value;
    ImageExtensionShape(e1);
    ImageExtensionShape(e2);
    if RecipePhotoUpload(u1, t1, r1, s1) == RecipePhotoUpload(u2, t2, r2, s2) {
      var du1, du2 := Text.Decimal(u1), Text.Decimal(u2);
      var dt1, dt2 := Text.Decimal(t1), Text.Decimal(t2);
      var tail1, tail2 := "_" + (dt1 + e1), "_" + (dt2 + e2);
      assert du1 + tail1 == ("recipe_" + (du1 + tail1))[7..];
      assert du2 + tail2 == ("recipe_" + (du2 + tail2))[7..];
      DigitsThenSuffix(du1, tail1, du2, tail2);
      DecimalInjective(u1, u2);
      assert dt1 + e1 == tail1[1..] && dt2 + e2 == tail2[1..];
      DigitsThenSuffix(dt1, e1, dt2, e2);
      DecimalInjective(t1, t2);
    }
  }
}
