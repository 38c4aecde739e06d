/** Localizing an article's images ("annexes"): every image is downloaded,
    saved under a fresh name in the annex folder, and its `src` rewritten to
    that name once every download has settled. */
module Annex {
  import opened Wrappers
  import opened JsText

  /** Why one image's download promise rejects. */
  datatype Failure =
    | DownloadFailed  // the GET for the image's src rejected
    | AltMissing      // the element has no alt: calling `match` on undefined throws
    | NoExtension     // the alt has no trailing `.ext`: indexing the null match throws

  /** An image element: its src, its alt (None when the attribute is absent)
      and all its other attributes. */
  datatype Image = Image(src: string, alt: Option<string>, others: map<string, string>)

  /** The two plugin settings the pass reads. */
  datatype Settings = Settings(localAnnex: bool, annexPath: string)

  /** What one run of the pass did: whether it completed, the URLs it
      requested in order, the binary files it created, and the images after it. */
  datatype PassResult = PassResult(ok: bool, requests: seq<string>, writes: seq<string>, images: seq<Image>)

  /** The pass runs only when localization is switched on and the annex folder
      is not blank once trimmed. */
  function Enabled(settings: Settings): (b: bool)
    ensures b <==> settings.localAnnex && !AllSpace(settings.annexPath)
  {
    TrimEmptyIff(settings.annexPath);
    settings.localAnnex && Trim(settings.annexPath) != []
  }

  // ---------------------------------------------------------------------------
  // The suffix rule: `alt === '' ? '.png' : alt.match(/\.[a-zA-Z0-9]+$/)![0]`

  /** The character class `[a-zA-Z0-9]`. */
  predicate IsAsciiAlnum(c: char)
  {
    'a' <= c <= 'z' || 'A' <= c <= 'Z' || '0' <= c <= '9'
  }

  /** The pattern `\.[a-zA-Z0-9]+$` matches `s` starting at index `i`. */
  predicate ExtensionAt(s: string, i: int)
  {
    0 <= i < |s| - 1 && s[i] == '.' && forall j :: i < j < |s| ==> IsAsciiAlnum(s[j])
  }

  /** At most one position matches, so the leftmost match the regex reports
      is the only one. */
  lemma ExtensionAtUnique(s: string, i: int, j: int)
    requires ExtensionAt(s, i) && ExtensionAt(s, j)
    ensures i == j
  {
  }

  /** Length of the run of `[a-zA-Z0-9]` that ends `s`. */
  function TrailingAlnum(s: string): (n: nat)
    ensures n <= |s|
    ensures forall j :: |s| - n <= j < |s| ==> IsAsciiAlnum(s[j])
    ensures n < |s| ==> !IsAsciiAlnum(s[|s| - n - 1])
  {
    if s != [] && IsAsciiAlnum(s[|s| - 1]) then 1 + TrailingAlnum(s[..|s| - 1]) else 0
  }

  /** The match of `/\.[a-zA-Z0-9]+$/` in `s` (None for JavaScript's null):
      there is one exactly when some position matches, and it is the rest of
      `s` from that position. */
  function ExtensionMatch(s: string): (r: Option<string>)
    ensures r.Some? <==> exists i :: ExtensionAt(s, i)
    ensures forall i :: ExtensionAt(s, i) ==> r == Some(s[i..])
  {
    var n := TrailingAlnum(s);
    if 0 < n < |s| && s[|s| - n - 1] == '.' then
      assert ExtensionAt(s, |s| - n - 1);
      Some(s[|s| - n - 1..])
    else
      None
  }

  /** The file suffix for an image with the given alt: ".png" for an empty
      alt, otherwise the alt's trailing `.ext`; a missing alt, or one without
      such an ending, makes the expression throw. Whatever it yields is a dot
      and at least one more character. */
  function ImageSuffix(alt: Option<string>): (r: Result<string, Failure>)
    ensures r.Ok? ==> |r.value| >= 2 && r.value[0] == '.'
  {
    match alt
    case None => Err(AltMissing)
    case Some(a) =>
      if a == "" then Ok(".png")
      else
        match ExtensionMatch(a)
        case None => Err(NoExtension)
        case Some(m) => Ok(m)
  }

  /** The suffix rule case by case: a missing alt throws; an empty alt gives
      ".png"; any other alt gives the part from the one position where
      `\.[a-zA-Z0-9]+$` matches, and throws when there is none. */
  lemma ImageSuffixCases(alt: Option<string>)
    ensures alt.None? ==> ImageSuffix(alt) == Err(AltMissing)
    ensures alt == Some("") ==> ImageSuffix(alt) == Ok(".png")
    ensures alt.Some? && alt.value != "" ==>
              (ImageSuffix(alt).Ok? <==> exists i :: ExtensionAt(alt.value, i))
              && (ImageSuffix(alt).Err? ==> ImageSuffix(alt).error == NoExtension)
    ensures forall i :: alt.Some? && ExtensionAt(alt.value, i) ==> ImageSuffix(alt) == Ok(alt.value[i..])
  {
  }

  /** An empty alt always gives ".png"; a missing one always throws. */
  lemma ImageSuffixDefaults()
    ensures ImageSuffix(Some("")) == Ok(".png")
    ensures ImageSuffix(None) == Err(AltMissing)
  {
  }

  /** An alt that ends in a dot and letters or digits gives exactly that
      ending, whatever comes before it: "photo.jpeg" gives ".jpeg",
      "archive.tar.gz" gives ".gz". */
  lemma {:induction false} ImageSuffixOfFileName(name: string, ext: string)
    requires ext != [] && forall j :: 0 <= j < |ext| ==> IsAsciiAlnum(ext[j])
    ensures ImageSuffix(Some(name + "." + ext)) == Ok("." + ext)
  {
    var alt := name + "." + ext;
    assert ExtensionAt(alt, |name|) by {
      forall j | |name| < j < |alt| ensures IsAsciiAlnum(alt[j]) {
        assert alt[j] == ext[j - |name| - 1];
      }
    }
    assert alt[|name|..] == "." + ext;
    ImageSuffixCases(Some(alt));
  }

  /** An alt without a dot, such as "photo", or one ending in a dot, such as
      "photo.", makes the suffix expression throw. */
  lemma {:induction false} ImageSuffixWithoutExtension(alt: string)
    requires alt != []
    requires (forall j :: 0 <= j < |alt| ==> alt[j] != '.') || alt[|alt| - 1] == '.'
    ensures ImageSuffix(Some(alt)) == Err(NoExtension)
  {
    ImageSuffixCases(Some(alt));
  }

  /** For example, an alt of "photo.jpeg" gives ".jpeg". */
  lemma ImageSuffixPhotoJpeg(alt: string)
    requires alt == "photo.jpeg"
    ensures ImageSuffix(Some(alt)) == Ok(".jpeg")
  {
    assert alt == "photo" + "." + "jpeg";
    ImageSuffixOfFileName("photo", "jpeg");
  }

  // ---------------------------------------------------------------------------
  // Downloads and local names

  /** The local name `${annexPath}/${uuid}${suffix}`; the folder is used as
      configured, untrimmed. */
  function LocalName(annexPath: string, id: string, suffix: string): (r: string)
    ensures |r| == |annexPath| + 1 + |id| + |suffix|
    ensures r[..|annexPath| + 1] == annexPath + "/" && r[|annexPath| + 1..] == id + suffix
  {
    annexPath + "/" + id + suffix
  }

  /** The settled promise of the download of image `k`: `served(k)` says
      whether its GET succeeds, `uuid(k)` is the name drawn for it. The suffix
      is only computed once the response has arrived. */
  function Download(img: Image, k: nat, annexPath: string, served: nat -> bool, uuid: nat -> string)
    : (r: Result<string, Failure>)
    ensures r.Ok? ==> |r.value| > |annexPath| + 1 && r.value[..|annexPath| + 1] == annexPath + "/"
  {
    if !served(k) then Err(DownloadFailed)
    else
      match ImageSuffix(img.alt)
      case Err(e) => Err(e)
      case Ok(suffix) =>
        assert LocalName(annexPath, uuid(k), suffix) == (annexPath + "/") + (uuid(k) + suffix);
        Ok(LocalName(annexPath, uuid(k), suffix))
  }

  /** A download resolves exactly when its GET succeeds and its alt yields a
      suffix, and then it names `annexPath/uuid(k)` followed by that suffix. */
  lemma DownloadResolved(img: Image, k: nat, annexPath: string, served: nat -> bool, uuid: nat -> string)
    ensures Download(img, k, annexPath, served, uuid).Ok? <==> served(k) && ImageSuffix(img.alt).Ok?
    ensures Download(img, k, annexPath, served, uuid).Ok? ==>
              Download(img, k, annexPath, served, uuid).value
              == LocalName(annexPath, uuid(k), ImageSuffix(img.alt).value)
  {
  }

  /** The suffix rule never yields a `/`: it is ".png" or a dot followed by
      letters and digits. */
  lemma ImageSuffixHasNoSlash(alt: Option<string>)
    requires ImageSuffix(alt).Ok?
    ensures forall i :: 0 <= i < |ImageSuffix(alt).value| ==> ImageSuffix(alt).value[i] != '/'
  {
    ImageSuffixCases(alt);
    var v := ImageSuffix(alt).value;
    if alt.value != "" {
      var i :| ExtensionAt(alt.value, i);
      assert v == alt.value[i..];
    }
  }

  /** With a uuid that has no `/` (as a v4 uuid never does), a resolved
      download lies directly in the annex folder, not in a subfolder. */
  lemma DownloadDirectlyInFolder(img: Image, k: nat, annexPath: string, served: nat -> bool, uuid: nat -> string)
    requires Download(img, k, annexPath, served, uuid).Ok?
    requires forall i :: 0 <= i < |uuid(k)| ==> uuid(k)[i] != '/'
    ensures var w := Download(img, k, annexPath, served, uuid).value;
            forall i :: |annexPath| < i < |w| ==> w[i] != '/'
  {
    DownloadResolved(img, k, annexPath, served, uuid);
    var suffix := ImageSuffix(img.alt).value;
    ImageSuffixHasNoSlash(img.alt);
    var w := LocalName(annexPath, uuid(k), suffix);
    var tail := uuid(k) + suffix;
    assert w == (annexPath + "/") + tail;
    assert forall i :: |annexPath| < i < |w| ==> w[i] == tail[i - |annexPath| - 1];
  }

  /** One download per image element, in document order. */
  function Downloads(imgs: seq<Image>, annexPath: string, served: nat -> bool, uuid: nat -> string)
    : seq<Result<string, Failure>>
  {
    seq(|imgs|, k requires 0 <= k < |imgs| => Download(imgs[k], k, annexPath, served, uuid))
  }

  /** The src of every image, in document order. */
  function Sources(imgs: seq<Image>): seq<string>
  {
    seq(|imgs|, k requires 0 <= k < |imgs| => imgs[k].src)
  }

  predicate AllOk(rs: seq<Result<string, Failure>>)
  {
    forall k :: 0 <= k < |rs| ==> rs[k].Ok?
  }

  /** The names of the files created: one per download that resolved. */
  function Successes(rs: seq<Result<string, Failure>>): (names: seq<string>)
    ensures |names| <= |rs|
  {
    if rs == [] then []
    else
      var last := rs[|rs| - 1];
      Successes(rs[..|rs| - 1]) + if last.Ok? then [last.value] else []
  }

  /** The `[src, localName]` pairs the promises resolve to, in order. */
  function Entries(imgs: seq<Image>, rs: seq<Result<string, Failure>>): seq<(string, string)>
    requires |imgs| == |rs| && AllOk(rs)
  {
    seq(|imgs|, k requires 0 <= k < |imgs| => (imgs[k].src, rs[k].value))
  }

  // ---------------------------------------------------------------------------
  // The name map: `new Map(entries)`

  /** A JavaScript `Map` built from `entries`: each pair is set in turn, so its
      keys are exactly the entries' keys. */
  function BuildMap(entries: seq<(string, string)>): (m: map<string, string>)
    ensures forall key :: key in m <==> exists i :: 0 <= i < |entries| && entries[i].0 == key
  {
    if entries == [] then map[]
    else
      var last := entries[|entries| - 1];
      var m := BuildMap(entries[..|entries| - 1]);
      assert forall i :: 0 <= i < |entries| - 1 ==> entries[..|entries| - 1][i] == entries[i];
      m[last.0 := last.1]
  }

  /** For a repeated key the entry that comes last wins. */
  lemma {:induction false} BuildMapLastWins(entries: seq<(string, string)>, i: int)
    requires 0 <= i < |entries|
    requires forall j :: i < j < |entries| ==> entries[j].0 != entries[i].0
    ensures entries[i].0 in BuildMap(entries) && BuildMap(entries)[entries[i].0] == entries[i].1
  {
    if i < |entries| - 1 {
      var init := entries[..|entries| - 1];
      assert init[i] == entries[i];
      assert forall j :: i < j < |init| ==> init[j] == entries[j];
      BuildMapLastWins(init, i);
    }
  }

  /** Every image's src with the name it maps to; all other attributes kept. */
  function Rewrite(imgs: seq<Image>, m: map<string, string>): (r: seq<Image>)
    requires forall k :: 0 <= k < |imgs| ==> imgs[k].src in m
    ensures |r| == |imgs|
    ensures forall k :: 0 <= k < |r| ==>
              r[k].src == m[imgs[k].src] && r[k].alt == imgs[k].alt && r[k].others == imgs[k].others
  {
    seq(|imgs|, k requires 0 <= k < |imgs| => imgs[k].(src := m[imgs[k].src]))
  }

  lemma EntriesCoverSources(imgs: seq<Image>, rs: seq<Result<string, Failure>>)
    requires |imgs| == |rs| && AllOk(rs)
    ensures forall k :: 0 <= k < |imgs| ==> imgs[k].src in BuildMap(Entries(imgs, rs))
  {
    var es := Entries(imgs, rs);
    forall k | 0 <= k < |imgs| ensures imgs[k].src in BuildMap(es) {
      assert es[k].0 == imgs[k].src;
    }
  }

  // ---------------------------------------------------------------------------
  // The whole pass

  /** What `downloadAnnex` does to the images of an article. Every download
      is issued before any is awaited, so all are requested even when one
      fails; each download that resolves has written its file; only when all
      resolve are the sources rewritten. */
  function Localize(imgs: seq<Image>, settings: Settings, served: nat -> bool, uuid: nat -> string)
    : (r: PassResult)
    ensures |r.images| == |imgs| && |r.writes| <= |r.requests| <= |imgs|
    ensures !r.ok ==> r.images == imgs
  {
    if !Enabled(settings) then PassResult(true, [], [], imgs)
    else
      var rs := Downloads(imgs, settings.annexPath, served, uuid);
      if AllOk(rs) then
        EntriesCoverSources(imgs, rs);
        PassResult(true, Sources(imgs), Successes(rs), Rewrite(imgs, BuildMap(Entries(imgs, rs))))
      else
        PassResult(false, Sources(imgs), Successes(rs), imgs)
  }

  /** The first half of the pass: one download per image element, in
      document order, all of them issued even after one has failed. Reads the
      images and changes nothing. */
  method DownloadAll(a: array<Image>, annexPath: string, served: nat -> bool, uuid: nat -> string)
    returns (failed: bool, requests: seq<string>, writes: seq<string>, entries: seq<(string, string)>)
    ensures requests == Sources(a[..])
    ensures writes == Successes(Downloads(a[..], annexPath, served, uuid))
    ensures failed <==> !AllOk(Downloads(a[..], annexPath, served, uuid))
    ensures !failed ==> entries == Entries(a[..], Downloads(a[..], annexPath, served, uuid))
  {
    ghost var imgs := a[..];
    ghost var rs := Downloads(imgs, annexPath, served, uuid);
    requests, writes, entries := [], [], [];
    failed := false;
    var k := 0;
    while k < a.Length
      invariant 0 <= k <= a.Length
      invariant requests == Sources(imgs[..k])
      invariant writes == Successes(rs[..k])
      invariant failed <==> !AllOk(rs[..k])
      invariant !failed ==> entries == Entries(imgs[..k], rs[..k])
    {
      var img := a[k];
      var r := Download(img, k, annexPath, served, uuid);
      assert r == rs[k];
      PrefixStep(imgs, rs, k);
      requests := requests + [img.src];
      if r.Ok? {
        writes := writes + [r.value];
        entries := entries + [(img.src, r.value)];
      } else {
        failed := true;
      }
      k := k + 1;
    }
    assert imgs[..k] == imgs && rs[..k] == rs;
  }

  /** How each prefix summary grows by one download. */
  lemma PrefixStep(imgs: seq<Image>, rs: seq<Result<string, Failure>>, k: int)
    requires 0 <= k < |imgs| == |rs|
    ensures Sources(imgs[..k + 1]) == Sources(imgs[..k]) + [imgs[k].src]
    ensures Successes(rs[..k + 1]) == Successes(rs[..k]) + if rs[k].Ok? then [rs[k].value] else []
    ensures AllOk(rs[..k + 1]) <==> AllOk(rs[..k]) && rs[k].Ok?
    ensures AllOk(rs[..k + 1]) ==>
      Entries(imgs[..k + 1], rs[..k + 1]) == Entries(imgs[..k], rs[..k]) + [(imgs[k].src, rs[k].value)]
  {
    SuccessesSnoc(rs, k);
    assert rs[..k + 1][k] == rs[k];
  }

  lemma SuccessesSnoc(rs: seq<Result<string, Failure>>, k: int)
    requires 0 <= k < |rs|
    ensures Successes(rs[..k + 1]) == Successes(rs[..k]) + if rs[k].Ok? then [rs[k].value] else []
  {
    assert rs[..k + 1][..k] == rs[..k];
  }

  /** The second half of the pass: each image's src overwritten in place
      with the name the map gives it. */
  method RewriteAll(a: array<Image>, mapping: map<string, string>)
    requires forall k :: 0 <= k < a.Length ==> a[k].src in mapping
    modifies a
    ensures a[..] == Rewrite(old(a[..]), mapping)
  {
    var k := 0;
    while k < a.Length
      invariant 0 <= k <= a.Length
      invariant a[k..] == old(a[k..])
      invariant a[..k] == Rewrite(old(a[..]), mapping)[..k]
    {
      assert a[k] == old(a[k]);
      a[k] := a[k].(src := mapping[a[k].src]);
      k := k + 1;
    }
    assert a[..] == a[..k];
  }

  /** The pass in place over the article's image elements: all downloads
      first; then, if every one resolved, each src is overwritten with the
      name the map gives its original src. */
  method LocalizeImages(a: array<Image>, settings: Settings, served: nat -> bool, uuid: nat -> string)
    returns (ok: bool, requests: seq<string>, writes: seq<string>)
    modifies a
    ensures PassResult(ok, requests, writes, a[..]) == Localize(old(a[..]), settings, served, uuid)
  {
    if !Enabled(settings) {
      return true, [], [];
    }
    var failed, entries;
    failed, requests, writes, entries := DownloadAll(a, settings.annexPath, served, uuid);
    if failed {
      return false, requests, writes;
    }
    ghost var rs := Downloads(a[..], settings.annexPath, served, uuid);
    EntriesCoverSources(a[..], rs);
    RewriteAll(a, BuildMap(entries));
    ok := true;
  }

  // ---------------------------------------------------------------------------
  // Properties of the pass

  /** Switched off, or with a blank annex folder, the pass requests nothing,
      writes nothing and leaves every image as it was. */
  lemma LocalizeDisabled(imgs: seq<Image>, settings: Settings, served: nat -> bool, uuid: nat -> string)
    requires !settings.localAnnex || AllSpace(settings.annexPath)
    ensures Localize(imgs, settings, served, uuid) == PassResult(true, [], [], imgs)
  {
  }

  /** Switched on, the pass requests every image's src once, in document
      order, repeated URLs included. */
  lemma LocalizeRequestsEveryImage(imgs: seq<Image>, settings: Settings, served: nat -> bool, uuid: nat -> string)
    requires Enabled(settings)
    ensures var r := Localize(imgs, settings, served, uuid);
            |r.requests| == |imgs| && forall k :: 0 <= k < |imgs| ==> r.requests[k] == imgs[k].src
  {
  }

  /** Every image's GET succeeds and every image's alt yields a suffix. */
  predicate AllResolve(imgs: seq<Image>, served: nat -> bool)
  {
    forall k :: 0 <= k < |imgs| ==> served(k) && ImageSuffix(imgs[k].alt).Ok?
  }

  /** The pass completes exactly when it is switched off or every download
      succeeds and every image has a usable alt; when it does not complete it
      changes no image. */
  lemma LocalizeAllOrNothing(imgs: seq<Image>, settings: Settings, served: nat -> bool, uuid: nat -> string)
    ensures var r := Localize(imgs, settings, served, uuid);
            (r.ok <==> !Enabled(settings) || AllResolve(imgs, served))
            && (!r.ok ==> r.images == imgs)
  {
    if Enabled(settings) {
      var rs := Downloads(imgs, settings.annexPath, served, uuid);
      LocalizeEnabled(imgs, settings, served, uuid);
      forall k | 0 <= k < |imgs| ensures rs[k].Ok? <==> served(k) && ImageSuffix(imgs[k].alt).Ok? {
        DownloadResolved(imgs[k], k, settings.annexPath, served, uuid);
      }
      assert AllOk(rs) <==> AllResolve(imgs, served);
    }
  }

  /** The pass keeps the number and order of images and changes no attribute
      but src. */
  lemma LocalizeKeepsOtherAttributes(imgs: seq<Image>, settings: Settings, served: nat -> bool, uuid: nat -> string)
    ensures var r := Localize(imgs, settings, served, uuid);
            |r.images| == |imgs|
            && forall i :: 0 <= i < |imgs| ==> r.images[i] == imgs[i].(src := r.images[i].src)
  {
  }

  /** Switched on, the pass's outcome in terms of the settled downloads. */
  lemma LocalizeEnabled(imgs: seq<Image>, settings: Settings, served: nat -> bool, uuid: nat -> string)
    requires Enabled(settings)
    ensures var rs := Downloads(imgs, settings.annexPath, served, uuid);
            var r := Localize(imgs, settings, served, uuid);
            r.ok == AllOk(rs) && r.writes == Successes(rs)
  {
  }

  /** Every file the pass creates is named under `annexPath/`, and there
      are never more files than images. */
  lemma LocalizeWritesInFolder(imgs: seq<Image>, settings: Settings, served: nat -> bool, uuid: nat -> string)
    ensures var r := Localize(imgs, settings, served, uuid);
            |r.writes| <= |imgs|
            && forall w :: w in r.writes ==>
                 |w| > |settings.annexPath| + 1 && w[..|settings.annexPath| + 1] == settings.annexPath + "/"
  {
    if Enabled(settings) {
      LocalizeEnabled(imgs, settings, served, uuid);
      SuccessesInFolder(imgs, settings.annexPath, served, uuid);
    }
  }

  lemma SuccessesInFolder(imgs: seq<Image>, p: string, served: nat -> bool, uuid: nat -> string)
    ensures forall w :: w in Successes(Downloads(imgs, p, served, uuid)) ==>
              |w| > |p| + 1 && w[..|p| + 1] == p + "/"
  {
    var rs := Downloads(imgs, p, served, uuid);
    SuccessesAreResolved(rs);
    forall w | w in Successes(rs) ensures |w| > |p| + 1 && w[..|p| + 1] == p + "/" {
      var k :| 0 <= k < |rs| && rs[k] == Ok(w);
      assert rs[k] == Download(imgs[k], k, p, served, uuid);
    }
  }

  /** A completed pass with localization on creates one file per image, in
      document order, a URL that appears twice included. */
  lemma LocalizeCompletedWrites(imgs: seq<Image>, settings: Settings, served: nat -> bool, uuid: nat -> string)
    requires Enabled(settings) && AllResolve(imgs, served)
    ensures var r := Localize(imgs, settings, served, uuid);
            |r.writes| == |imgs|
            && forall k :: 0 <= k < |imgs| ==>
                 ImageSuffix(imgs[k].alt).Ok?
                 && r.writes[k] == LocalName(settings.annexPath, uuid(k), ImageSuffix(imgs[k].alt).value)
  {
    var rs := Downloads(imgs, settings.annexPath, served, uuid);
    LocalizeAllOrNothing(imgs, settings, served, uuid);
    LocalizeEnabled(imgs, settings, served, uuid);
    SuccessesOfAllOk(rs);
    forall k | 0 <= k < |imgs|
      ensures ImageSuffix(imgs[k].alt).Ok?
      ensures rs[k].value == LocalName(settings.annexPath, uuid(k), ImageSuffix(imgs[k].alt).value)
    {
      assert rs[k] == Download(imgs[k], k, settings.annexPath, served, uuid);
      DownloadResolved(imgs[k], k, settings.annexPath, served, uuid);
    }
  }

  /** Every created file's name is the value of a resolved download. */
  lemma {:induction false} SuccessesAreResolved(rs: seq<Result<string, Failure>>)
    ensures forall w :: w in Successes(rs) ==> exists k :: 0 <= k < |rs| && rs[k] == Ok(w)
  {
    if rs != [] {
      var init := rs[..|rs| - 1];
      SuccessesAreResolved(init);
      forall w | w in Successes(rs) ensures exists k :: 0 <= k < |rs| && rs[k] == Ok(w) {
        if w in Successes(init) {
          var k :| 0 <= k < |init| && init[k] == Ok(w);
          assert rs[k] == Ok(w);
        } else {
          assert rs[|rs| - 1] == Ok(w);
        }
      }
    }
  }

  /** Every resolved download's name is among the created files. */
  lemma {:induction false} SuccessesCover(rs: seq<Result<string, Failure>>, k: int)
    requires 0 <= k < |rs| && rs[k].Ok?
    ensures rs[k].value in Successes(rs)
  {
    if k < |rs| - 1 {
      var init := rs[..|rs| - 1];
      assert init[k] == rs[k];
      SuccessesCover(init, k);
    }
  }

  /** Switched on, the pass writes the file of every image whose GET
      succeeds and whose alt yields a suffix, even when another image makes
      the pass fail: the `.then` callbacks are not cancelled. */
  lemma LocalizeWritesEveryResolved(imgs: seq<Image>, settings: Settings, served: nat -> bool,
                                    uuid: nat -> string, k: int)
    requires Enabled(settings) && 0 <= k < |imgs|
    requires served(k) && ImageSuffix(imgs[k].alt).Ok?
    ensures LocalName(settings.annexPath, uuid(k), ImageSuffix(imgs[k].alt).value)
            in Localize(imgs, settings, served, uuid).writes
  {
    var rs := Downloads(imgs, settings.annexPath, served, uuid);
    LocalizeEnabled(imgs, settings, served, uuid);
    DownloadResolved(imgs[k], k, settings.annexPath, served, uuid);
    assert rs[k] == Download(imgs[k], k, settings.annexPath, served, uuid);
    SuccessesCover(rs, k);
  }

  /** When every download resolves, one file is created per download, in order. */
  lemma {:induction false} SuccessesOfAllOk(rs: seq<Result<string, Failure>>)
    requires AllOk(rs)
    ensures |Successes(rs)| == |rs|
    ensures forall k :: 0 <= k < |rs| ==> Successes(rs)[k] == rs[k].value
  {
    if rs != [] {
      var init := rs[..|rs| - 1];
      assert forall k :: 0 <= k < |init| ==> init[k] == rs[k];
      SuccessesOfAllOk(init);
    }
  }

  /** The last image, at or after `i`, whose src equals that of image `i`. */
  lemma {:induction false} LastWithSource(imgs: seq<Image>, i: int) returns (j: int)
    requires 0 <= i < |imgs|
    ensures i <= j < |imgs| && imgs[j].src == imgs[i].src
    ensures forall l :: j < l < |imgs| ==> imgs[l].src != imgs[i].src
  {
    if imgs[|imgs| - 1].src == imgs[i].src {
      j := |imgs| - 1;
    } else {
      var init := imgs[..|imgs| - 1];
      j := LastWithSource(init, i);
    }
  }

  /** After a completed pass, image `i` points at the file created for the
      last image that shared its original src: images with equal URLs all end
      up with the name made for the last of them. */
  lemma LocalizeSharedSource(imgs: seq<Image>, settings: Settings, served: nat -> bool, uuid: nat -> string,
                             i: int, j: int)
    requires Enabled(settings) && AllResolve(imgs, served)
    requires 0 <= i <= j < |imgs| && imgs[j].src == imgs[i].src
    requires forall l :: j < l < |imgs| ==> imgs[l].src != imgs[i].src
    ensures served(j) && ImageSuffix(imgs[j].alt).Ok?
    ensures Localize(imgs, settings, served, uuid).images[i].src
            == LocalName(settings.annexPath, uuid(j), ImageSuffix(imgs[j].alt).value)
  {
    var rs := Downloads(imgs, settings.annexPath, served, uuid);
    LocalizeAllOrNothing(imgs, settings, served, uuid);
    LocalizeEnabled(imgs, settings, served, uuid);
    assert AllOk(rs);
    var es := Entries(imgs, rs);
    var m := BuildMap(es);
    assert forall l :: j < l < |es| ==> es[l].0 == imgs[l].src;
    BuildMapLastWins(es, j);
    assert m[imgs[i].src] == rs[j].value;
    assert rs[j] == Download(imgs[j], j, settings.annexPath, served, uuid);
    DownloadResolved(imgs[j], j, settings.annexPath, served, uuid);
    EntriesCoverSources(imgs, rs);
    var r := Localize(imgs, settings, served, uuid);
    assert r.images == Rewrite(imgs, m);
    assert r.images[i].src == m[imgs[i].src];
  }

  /** After a completed pass, every image points at a file the pass created. */
  lemma LocalizePointsAtWrittenFiles(imgs: seq<Image>, settings: Settings, served: nat -> bool, uuid: nat -> string)
    requires Enabled(settings) && AllResolve(imgs, served)
    ensures var r := Localize(imgs, settings, served, uuid);
            forall i :: 0 <= i < |imgs| ==> r.images[i].src in r.writes
  {
    var r := Localize(imgs, settings, served, uuid);
    LocalizeAllOrNothing(imgs, settings, served, uuid);
    LocalizeCompletedWrites(imgs, settings, served, uuid);
    forall i | 0 <= i < |imgs| ensures r.images[i].src in r.writes {
      var j := LastWithSource(imgs, i);
      LocalizeSharedSource(imgs, settings, served, uuid, i, j);
      assert r.writes[j] == r.images[i].src;
    }
  }

  /** Two images with one URL and one alt: two requests, two files, and both
      images point at the second file, so the first file is created but never
      referenced. */
  lemma DuplicateSourceOrphansFirstFile(imgs: seq<Image>, settings: Settings, served: nat -> bool,
                                        uuid: nat -> string)
    requires |imgs| == 2 && imgs[0].src == imgs[1].src && imgs[0].alt == imgs[1].alt
    requires Enabled(settings) && AllResolve(imgs, served) && uuid(0) != uuid(1)
    ensures var r := Localize(imgs, settings, served, uuid);
            r.ok && r.requests == [imgs[0].src, imgs[0].src] && |r.writes| == 2
            && r.images[0].src == r.images[1].src == r.writes[1] != r.writes[0]
  {
    var r := Localize(imgs, settings, served, uuid);
    LocalizeAllOrNothing(imgs, settings, served, uuid);
    LocalizeRequestsEveryImage(imgs, settings, served, uuid);
    assert r.requests == [imgs[0].src, imgs[0].src];
    LocalizeCompletedWrites(imgs, settings, served, uuid);
    LocalizeSharedSource(imgs, settings, served, uuid, 0, 1);
    LocalizeSharedSource(imgs, settings, served, uuid, 1, 1);
    LocalNameInjective(settings.annexPath, uuid(0), uuid(1), ImageSuffix(imgs[0].alt).value);
  }

  /** Distinct uuids give distinct local names for one suffix. */
  lemma LocalNameInjective(annexPath: string, id0: string, id1: string, suffix: string)
    requires id0 != id1
    ensures LocalName(annexPath, id0, suffix) != LocalName(annexPath, id1, suffix)
  {
    var p := annexPath + "/";
    var n0, n1 := LocalName(annexPath, id0, suffix), LocalName(annexPath, id1, suffix);
    assert n0 == p + id0 + suffix && n1 == p + id1 + suffix;
    if |id0| == |id1| {
      var k :| 0 <= k < |id0| && id0[k] != id1[k];
      assert n0[|p| + k] == id0[k];
      assert n1[|p| + k] == id1[k];
    } else {
      assert |n0| != |n1|;
    }
  }
}
