/** The video extractor (coursera/extractors/video.py).  The browser is
    replaced by what the page shows it (a `Page` value), the HTTP session
    by `fetch` and yt-dlp by `ytdlp`: each maps a URL to the size of the
    file it delivers, or None when the download fails. */
module Video {
  import opened Base
  import opened Fs
  import opened Files

  // ---------------------------------------------------------------------
  // The page as the extractor sees it
  // ---------------------------------------------------------------------

  /** A "Download" anchor: its visible text and its `href` ("" when absent). */
  datatype Button = Button(text: string, href: string)

  /** An entry of the player's quality menu: its text and its `aria-label`. */
  datatype QualityOption = QualityOption(text: string, ariaLabel: string)

  /** A `<video>` element: its `src` and the `src` of each `<source>` child
      ("" when absent). */
  datatype VideoElement = VideoElement(src: string, sources: seq<string>)

  /** Everything the extractor reads from the browser.
      - `tracks`: the `src` of each English captions or subtitles track;
      - `buttons`: the anchors the "Download" XPath query finds;
      - `qualityMenu`: the settings button and its Quality entry were found;
      - `options`: the entries of the quality menu;
      - `videoSrc`: the `src` of the first `<video>`, None when there is none;
      - `browser`: None without a browser manager, else the m3u8 URL its
        network log reports ("" for none);
      - `videos`: every `<video>` element;
      - `source`: the page source. */
  datatype Page = Page(tracks: seq<string>, buttons: seq<Button>, qualityMenu: bool,
                       options: seq<QualityOption>, videoSrc: Option<string>,
                       browser: Option<string>, videos: seq<VideoElement>, source: string)

  /** The label attached to each file `process` reports. */
  datatype FileKind = Subtitle | VideoFile

  /** The download strategies, in the order `process` tries them. */
  datatype Strategy = Buttons | VideoTag | Manifest | YtDlp

  const Strategies: seq<Strategy> := [Buttons, VideoTag, Manifest, YtDlp]

  // ---------------------------------------------------------------------
  // File names
  // ---------------------------------------------------------------------

  const Mp4 := ".mp4"
  const EnVtt := "_en.vtt"

  /** `f"{item_counter:03d}_{title}.mp4"`. */
  function VideoName(counter: nat, title: string): Name
  {
    Pad3(counter) + "_" + title + Mp4
  }

  /** `f"{counter:03d}_{title}_en.vtt"`. */
  function SubtitleName(counter: nat, title: string): Name
  {
    Pad3(counter) + "_" + title + EnVtt
  }

  function VideoPath(moduleDir: Path, counter: nat, title: string): Path
  {
    moduleDir + [VideoName(counter, title)]
  }

  function SubtitlePath(moduleDir: Path, counter: nat, title: string): Path
  {
    moduleDir + [SubtitleName(counter, title)]
  }

  // ---------------------------------------------------------------------
  // One download attempt
  // ---------------------------------------------------------------------

  /** The tree after a file of `size` bytes is written at `target`. */
  function Saved(fs: FileSystem, target: Path, size: nat): FileSystem
    requires |target| >= 1
  {
    MkDirs(fs, Parent(target))[target := File(size)]
  }

  /** `if url and download(url, target)` succeeds. */
  predicate Succeeds(fs: FileSystem, target: Path, url: Option<string>, get: string -> Option<nat>)
  {
    url.Some? && (IsNonEmptyFile(fs, target) || (get(url.value).Some? && Writable(fs, target)))
  }

  /** What an attempt with outcome `ok` leaves behind: the delivered file
      when it wrote one, the old tree otherwise. */
  predicate Lands(fs: FileSystem, fs': FileSystem, target: Path, ok: bool, url: Option<string>, get: string -> Option<nat>)
  {
    && WellFormed(fs')
    && (!ok || IsNonEmptyFile(fs, target) ==> fs' == fs)
    && (ok && !IsNonEmptyFile(fs, target) ==>
          |target| >= 1 && url.Some? && get(url.value).Some? && fs' == Saved(fs, target, get(url.value).value))
  }

  /** Download `url`, when there is one, onto `target`. */
  method Attempt(fs: FileSystem, target: Path, url: Option<string>, get: string -> Option<nat>)
    returns (ok: bool, fs': FileSystem)
    requires WellFormed(fs) && |target| >= 1
    ensures ok <==> Succeeds(fs, target, url, get)
    ensures Lands(fs, fs', target, ok, url, get)
  {
    if url.None? {
      return false, fs;
    }
    ok, fs' := DownloadFile(fs, target, get(url.value));
  }

  // ---------------------------------------------------------------------
  // Strategy 1: the Download buttons
  // ---------------------------------------------------------------------

  const Hd720 := "720p"
  const Hd1080 := "1080p"

  predicate MentionsHd(s: string) { Contains(s, Hd720) || Contains(s, Hd1080) }

  /** A button with an `href` whose lower-cased text or whose `href`
      mentions 720p or 1080p. */
  predicate IsHdButton(b: Button)
  {
    b.href != [] && (MentionsHd(Lower(b.text)) || MentionsHd(b.href))
  }

  /** The `href` of the first HD button. */
  function FirstHdHref(btns: seq<Button>): Option<string>
  {
    if btns == [] then None
    else if IsHdButton(btns[0]) then Some(btns[0].href)
    else FirstHdHref(btns[1..])
  }

  /** The button strategy downloads the first HD button's link, and there
      is none exactly when no button is HD. */
  lemma {:induction false} FirstHdHrefIsFirst(btns: seq<Button>)
    ensures FirstHdHref(btns).None? <==> forall i | 0 <= i < |btns| :: !IsHdButton(btns[i])
    ensures FirstHdHref(btns).Some? ==>
              exists i :: 0 <= i < |btns| && IsHdButton(btns[i]) && FirstHdHref(btns).value == btns[i].href
                          && forall j | 0 <= j < i :: !IsHdButton(btns[j])
  {
    if btns != [] && !IsHdButton(btns[0]) {
      FirstHdHrefIsFirst(btns[1..]);
      if FirstHdHref(btns).Some? {
        var i :| 0 <= i < |btns[1..]| && IsHdButton(btns[1..][i]) && FirstHdHref(btns[1..]).value == btns[1..][i].href
                 && forall j | 0 <= j < i :: !IsHdButton(btns[1..][j]);
        assert forall j | 0 <= j < i + 1 :: !IsHdButton(btns[j]) by {
          forall j | 0 <= j < i + 1 ensures !IsHdButton(btns[j]) {
            if j > 0 { assert btns[j] == btns[1..][j - 1]; }
          }
        }
      } else {
        forall i | 0 <= i < |btns| ensures !IsHdButton(btns[i]) {
          if i > 0 { assert btns[i] == btns[1..][i - 1]; }
        }
      }
    }
  }

  /** The search loop of `_try_download_from_buttons`. */
  method PickHdButton(btns: seq<Button>) returns (best: Option<string>)
    ensures best == FirstHdHref(btns)
  {
    var i := 0;
    while i < |btns|
      invariant 0 <= i <= |btns|
      invariant FirstHdHref(btns) == FirstHdHref(btns[i..])
    {
      assert btns[i..][1..] == btns[i + 1..];
      if IsHdButton(btns[i]) {
        return Some(btns[i].href);
      }
      i := i + 1;
    }
    return None;
  }

  /** `_try_download_from_buttons`. */
  method TryButtons(fs: FileSystem, target: Path, btns: seq<Button>, fetch: string -> Option<nat>)
    returns (ok: bool, fs': FileSystem)
    requires WellFormed(fs) && |target| >= 1
    ensures ok <==> Succeeds(fs, target, FirstHdHref(btns), fetch)
    ensures Lands(fs, fs', target, ok, FirstHdHref(btns), fetch)
  {
    if btns == [] {
      return false, fs;
    }
    var best := PickHdButton(btns);
    ok, fs' := Attempt(fs, target, best, fetch);
  }

  // ---------------------------------------------------------------------
  // Strategy 2: the <video> tag, after switching the player to HD
  // ---------------------------------------------------------------------

  /** The run of ASCII digits at the front of `s`. */
  function DigitRun(s: string): (k: nat)
    ensures k <= |s| && (forall i :: 0 <= i < k ==> IsDigit(s[i])) && (k < |s| ==> !IsDigit(s[k]))
  {
    if s == [] || !IsDigit(s[0]) then 0 else 1 + DigitRun(s[1..])
  }

  /** `int(re.search(r"(\d+)p", s).group(1))`: the leftmost run of digits
      followed by 'p'.  A run not followed by 'p' is skipped whole, since
      every match starting inside it would end at the same character. */
  function FirstResolution(s: string): Option<nat>
    decreases |s|
  {
    if s == [] then None
    else
      var k := DigitRun(s);
      if k == 0 then FirstResolution(s[1..])
      else if k < |s| && s[k] == 'p' then Some(ParseNat(s[..k]))
      else FirstResolution(s[k..])
  }

  /** Text before the first digit does not hide a resolution: "HD 720p"
      reads as 720. */
  lemma {:induction false} ResolutionFound(a: string, n: nat, rest: string)
    requires forall i | 0 <= i < |a| :: !IsDigit(a[i])
    ensures FirstResolution(a + Decimal(n) + ['p'] + rest) == Some(n)
    decreases |a|
  {
    var s := a + Decimal(n) + ['p'] + rest;
    if a == [] {
      var d := Decimal(n);
      assert s == d + ['p'] + rest;
      assert s[|d|] == 'p';
      assert DigitRun(s) == |d| by {
        assert forall i | 0 <= i < |d| :: s[i] == d[i];
      }
      assert s[..|d|] == d;
      ParseDecimal(n);
    } else {
      assert DigitRun(s) == 0;
      assert s[1..] == a[1..] + Decimal(n) + ['p'] + rest;
      ResolutionFound(a[1..], n, rest);
    }
  }

  /** A resolution is only read from digits immediately followed by 'p'. */
  lemma {:induction false} ResolutionSound(s: string)
    ensures FirstResolution(s).Some? ==>
              exists i, k :: 0 <= i < k < |s| && ResolutionAt(s, i, k, FirstResolution(s).value)
    decreases |s|
  {
    if s != [] && FirstResolution(s).Some? {
      var k := DigitRun(s);
      if k == 0 {
        ResolutionSound(s[1..]);
        var i, j :| 0 <= i < j < |s[1..]| && ResolutionAt(s[1..], i, j, FirstResolution(s[1..]).value);
        ResolutionShift(s, 1, i, j, FirstResolution(s).value);
      } else if k < |s| && s[k] == 'p' {
        assert s[0..k] == s[..k];
        assert ResolutionAt(s, 0, k, FirstResolution(s).value);
      } else {
        ResolutionSound(s[k..]);
        var i, j :| 0 <= i < j < |s[k..]| && ResolutionAt(s[k..], i, j, FirstResolution(s[k..]).value);
        ResolutionShift(s, k, i, j, FirstResolution(s).value);
      }
    }
  }

  /** `s[i..k]` is a run of digits read as `v`, and 'p' follows it. */
  predicate ResolutionAt(s: string, i: nat, k: nat, v: nat)
    requires i < k < |s|
  {
    IsAllDigits(s[i..k]) && s[k] == 'p' && v == ParseNat(s[i..k])
  }

  lemma ResolutionShift(s: string, d: nat, i: nat, k: nat, v: nat)
    requires d <= |s| && i < k < |s| - d && ResolutionAt(s[d..], i, k, v)
    ensures ResolutionAt(s, d + i, d + k, v)
  {
    assert s[d..][i..k] == s[d + i..d + k];
    assert s[d..][k] == s[d + k];
  }

  /** Any digit followed by 'p' yields a resolution. */
  lemma {:induction false} ResolutionComplete(s: string, k: nat)
    requires 0 < k < |s| && IsDigit(s[k - 1]) && s[k] == 'p'
    ensures FirstResolution(s).Some?
    decreases |s|
  {
    var r := DigitRun(s);
    if r == 0 {
      assert s[1..][k - 1] == s[k];
      ResolutionComplete(s[1..], k - 1);
    } else if !(r < |s| && s[r] == 'p') {
      assert r < k;
      assert s[r..][k - r] == s[k] && s[r..][k - r - 1] == s[k - 1];
      ResolutionComplete(s[r..], k - r);
    }
  }

  /** `opt.text or opt.get_attribute("aria-label") or ""`. */
  function Label(o: QualityOption): string
  {
    if o.text != [] then o.text else o.ariaLabel
  }

  function Resolution(o: QualityOption): Option<nat>
  {
    FirstResolution(Label(o))
  }

  /** Option `t` carries the highest resolution, and no later option
      carries the same one (a later duplicate replaces an earlier one in
      `res_map`). */
  predicate HighestOption(opts: seq<QualityOption>, t: nat)
  {
    && t < |opts| && Resolution(opts[t]).Some?
    && (forall j | 0 <= j < |opts| && Resolution(opts[j]).Some? :: Resolution(opts[j]).value <= Resolution(opts[t]).value)
    && (forall j | t < j < |opts| :: Resolution(opts[j]) != Resolution(opts[t]))
  }

  /** `max(...)` of a non-empty set of resolutions. */
  method Max(keys: set<nat>) returns (m: nat)
    requires keys != {}
    ensures m in keys && forall k | k in keys :: k <= m
  {
    m :| m in keys;
    var rest := keys - {m};
    while rest != {}
      invariant m in keys && rest <= keys
      invariant forall k | k in keys && k !in rest :: k <= m
      decreases |rest|
    {
      var k :| k in rest;
      if k > m {
        m := k;
      }
      rest := rest - {k};
    }
  }

  /** `res_map` after the options before `i`: each recorded resolution
      maps to the last option carrying it, and every resolution read is
      recorded. */
  predicate ResMap(opts: seq<QualityOption>, resMap: map<nat, nat>, i: nat)
  {
    && i <= |opts|
    && (forall r | r in resMap :: resMap[r] < i && Resolution(opts[resMap[r]]) == Some(r))
    && (forall r | r in resMap :: forall j | resMap[r] < j < i :: Resolution(opts[j]) != Some(r))
    && (forall j | 0 <= j < i && Resolution(opts[j]).Some? :: Resolution(opts[j]).value in resMap)
  }

  lemma ResMapStep(opts: seq<QualityOption>, resMap: map<nat, nat>, i: nat, resMap': map<nat, nat>)
    requires i < |opts| && ResMap(opts, resMap, i)
    requires resMap' == if Resolution(opts[i]).Some? then resMap[Resolution(opts[i]).value := i] else resMap
    ensures ResMap(opts, resMap', i + 1)
  {
    var m := Resolution(opts[i]);
    forall r | r in resMap'
      ensures resMap'[r] < i + 1 && Resolution(opts[resMap'[r]]) == Some(r)
      ensures forall j | resMap'[r] < j < i + 1 :: Resolution(opts[j]) != Some(r)
    {
      if !(m.Some? && r == m.value) {
        assert r in resMap && resMap'[r] == resMap[r];
        forall j | resMap'[r] < j < i + 1 ensures Resolution(opts[j]) != Some(r) {
          if j < i {
            assert resMap[r] < j < i;
          }
        }
      }
    }
    forall j | 0 <= j < i + 1 && Resolution(opts[j]).Some?
      ensures Resolution(opts[j]).value in resMap'
    {
      if j < i {
        assert Resolution(opts[j]).value in resMap;
      }
    }
  }

  /** `_click_highest_resolution`: the index of the option it clicks. */
  method ClickHighestResolution(opts: seq<QualityOption>) returns (target: Option<nat>)
    ensures target.None? <==> forall j | 0 <= j < |opts| :: Resolution(opts[j]).None?
    ensures target.Some? ==> HighestOption(opts, target.value)
  {
    var resMap: map<nat, nat> := map[];
    for i := 0 to |opts|
      invariant ResMap(opts, resMap, i)
    {
      var m := Resolution(opts[i]);
      ghost var prev := resMap;
      if m.Some? {
        resMap := resMap[m.value := i];
      }
      ResMapStep(opts, prev, i, resMap);
    }
    if resMap == map[] {
      return None;
    }
    var best := Max(resMap.Keys);
    target := Some(resMap[best]);
  }

  /** `_switch_video_quality_to_hd`: when the Quality menu opens, the
      highest resolution is clicked. */
  method SwitchQualityToHd(page: Page) returns (clicked: Option<nat>)
    ensures clicked.Some? ==> page.qualityMenu && HighestOption(page.options, clicked.value)
    ensures page.qualityMenu && (exists j :: 0 <= j < |page.options| && Resolution(page.options[j]).Some?) ==> clicked.Some?
  {
    clicked := None;
    if page.qualityMenu {
      clicked := ClickHighestResolution(page.options);
    }
  }

  const Blob := "blob:"

  /** The `<video>` source the tag strategy downloads: a non-empty `src`
      that is not a `blob:` URL. */
  function TagSource(src: Option<string>): (r: Option<string>)
  {
    if src.Some? && src.value != [] && !StartsWith(src.value, Blob) then src else None
  }

  /** `_try_download_from_video_tag`; also returns the quality option it
      clicked first. */
  method TryVideoTag(fs: FileSystem, target: Path, page: Page, fetch: string -> Option<nat>)
    returns (clicked: Option<nat>, ok: bool, fs': FileSystem)
    requires WellFormed(fs) && |target| >= 1
    ensures clicked.Some? ==> page.qualityMenu && HighestOption(page.options, clicked.value)
    ensures ok <==> Succeeds(fs, target, TagSource(page.videoSrc), fetch)
    ensures ok ==> page.videoSrc.Some? && !StartsWith(page.videoSrc.value, Blob)
    ensures Lands(fs, fs', target, ok, TagSource(page.videoSrc), fetch)
  {
    clicked := SwitchQualityToHd(page);
    ok, fs' := Attempt(fs, target, TagSource(page.videoSrc), fetch);
  }

  // ---------------------------------------------------------------------
  // Strategy 3: an HLS or DASH manifest
  // ---------------------------------------------------------------------

  const M3u8 := ".m3u8"
  const Mpd := ".mpd"
  const Http := "http://"
  const Https := "https://"
  const Coursera := "coursera"
  const Cloudfront := "cloudfront"

  predicate IsManifestSrc(s: string) { s != [] && (Contains(s, M3u8) || Contains(s, Mpd)) }

  /** `[v.get_attribute("src")] + [s.get_attribute("src") for s in sources]`. */
  function Srcs(v: VideoElement): seq<string> { [v.src] + v.sources }

  function FirstManifestSrc(srcs: seq<string>): Option<string>
  {
    if srcs == [] then None
    else if IsManifestSrc(srcs[0]) then Some(srcs[0])
    else FirstManifestSrc(srcs[1..])
  }

  /** The first manifest-looking source over all `<video>` elements. */
  function DomManifest(videos: seq<VideoElement>): Option<string>
  {
    if videos == [] then None
    else if FirstManifestSrc(Srcs(videos[0])).Some? then FirstManifestSrc(Srcs(videos[0]))
    else DomManifest(videos[1..])
  }

  /** The characters of `[^"\\]`. */
  predicate UrlChar(c: char) { c != '"' && c != '\\' }

  function UrlRun(s: string): (k: nat)
    ensures k <= |s| && (forall i :: 0 <= i < k ==> UrlChar(s[i])) && (k < |s| ==> !UrlChar(s[k]))
  {
    if s == [] || !UrlChar(s[0]) then 0 else 1 + UrlRun(s[1..])
  }

  /** The length of `https?://`'s match at the front of `s`, or 0. */
  function SchemeLen(s: string): (n: nat)
    ensures n <= |s|
  {
    if StartsWith(s, Https) then |Https| else if StartsWith(s, Http) then |Http| else 0
  }

  /** The length of the match of `https?://[^"\\]+\.m3u8[^"\\]*` at the
      front of `s`, or 0.  Both classes stop at the same characters, so a
      match always runs to the end of the quote-free run after the scheme,
      and it exists when ".m3u8" occurs in that run after its first
      character. */
  function PlaylistMatch(s: string): (n: nat)
    ensures n <= |s|
  {
    var m := SchemeLen(s);
    if m == 0 then 0
    else
      var k := UrlRun(s[m..]);
      if k >= 1 && Contains(s[m + 1..m + k], M3u8) then m + k else 0
  }

  /** `re.findall(r'(https?://[^"\\]+\.m3u8[^"\\]*)', s)`. */
  function M3u8Urls(s: string): seq<string>
    decreases |s|
  {
    if s == [] then []
    else
      var n := PlaylistMatch(s);
      if n == 0 then M3u8Urls(s[1..]) else [s[..n]] + M3u8Urls(s[n..])
  }

  predicate IsPlaylistUrl(u: string)
  {
    && (StartsWith(u, Http) || StartsWith(u, Https))
    && Contains(u, M3u8)
    && forall i | 0 <= i < |u| :: UrlChar(u[i])
  }

  /** Every URL found in the page source is an http(s) playlist URL
      without quotes or backslashes. */
  lemma {:induction false} M3u8UrlsArePlaylists(s: string)
    ensures forall u | u in M3u8Urls(s) :: IsPlaylistUrl(u)
    decreases |s|
  {
    if s != [] {
      var n := PlaylistMatch(s);
      if n == 0 {
        M3u8UrlsArePlaylists(s[1..]);
      } else {
        M3u8UrlsArePlaylists(s[n..]);
        var m := SchemeLen(s);
        var k := UrlRun(s[m..]);
        var u := s[..n];
        assert StartsWith(u, Http) || StartsWith(u, Https);
        assert u[m + 1..m + k] == s[m + 1..m + k];
        ContainsSuffix(u[..m + k], m + 1, M3u8);
        assert u[..m + k] == u;
        forall i | 0 <= i < |u| ensures UrlChar(u[i]) {
          if i >= m {
            assert u[i] == s[m..][i - m];
          } else {
            assert u[i] == (if StartsWith(s, Https) then Https[i] else Http[i]);
          }
        }
      }
    }
  }

  /** No match starts at a double quote. */
  lemma QuoteSkipped(t: string)
    ensures M3u8Urls(['"'] + t) == M3u8Urls(t)
  {
    var s := ['"'] + t;
    assert s[0] != Https[0] && s[0] != Http[0];
    assert SchemeLen(s) == 0;
    assert s[1..] == t;
  }

  /** A playlist URL followed by a quote is matched whole. */
  lemma PlaylistBeforeQuote(u: string)
    requires StartsWith(u, Https) && |u| > |Https|
    requires forall i | 0 <= i < |u| :: UrlChar(u[i])
    requires Contains(u[|Https| + 1..], M3u8)
    ensures M3u8Urls(u + ['"']) == [u] + M3u8Urls(['"'])
  {
    var t := u + ['"'];
    var m := |Https|;
    assert t[..m] == u[..m];
    assert SchemeLen(t) == m;
    var r := t[m..];
    assert UrlRun(r) == |u| - m by {
      assert forall i | 0 <= i < |u| - m :: r[i] == u[m + i];
      assert r[|u| - m] == '"';
    }
    assert t[m + 1..|u|] == u[m + 1..];
    assert PlaylistMatch(t) == |u|;
    assert t[..|u|] == u && t[|u|..] == ['"'];
  }

  /** A playlist URL between double quotes is found, whole and alone. */
  lemma QuotedPlaylistFound(u: string)
    requires StartsWith(u, Https) && |u| > |Https|
    requires forall i | 0 <= i < |u| :: UrlChar(u[i])
    requires Contains(u[|Https| + 1..], M3u8)
    ensures M3u8Urls(['"'] + u + ['"']) == [u]
  {
    QuoteSkipped(u + ['"']);
    assert ['"'] + u + ['"'] == ['"'] + (u + ['"']);
    PlaylistBeforeQuote(u);
    QuoteSkipped([]);
    assert ['"'] + [] == ['"'];
  }

  predicate OnCdn(u: string) { Contains(u, Coursera) || Contains(u, Cloudfront) }

  function FirstOnCdn(urls: seq<string>): Option<string>
  {
    if urls == [] then None
    else if OnCdn(urls[0]) then Some(urls[0])
    else FirstOnCdn(urls[1..])
  }

  /** `_find_manifest_in_dom` as a value: a manifest source of a `<video>`
      element first, else the first CDN playlist URL of the page source. */
  function ManifestInDom(videos: seq<VideoElement>, source: string): Option<string>
  {
    if DomManifest(videos).Some? then DomManifest(videos) else FirstOnCdn(M3u8Urls(source))
  }

  lemma {:induction false} FirstManifestSrcSound(srcs: seq<string>)
    ensures FirstManifestSrc(srcs).Some? ==> FirstManifestSrc(srcs).value in srcs && IsManifestSrc(FirstManifestSrc(srcs).value)
  {
    if srcs != [] && !IsManifestSrc(srcs[0]) {
      FirstManifestSrcSound(srcs[1..]);
    }
  }

  lemma {:induction false} DomManifestSound(videos: seq<VideoElement>)
    ensures DomManifest(videos).Some? ==>
              IsManifestSrc(DomManifest(videos).value)
              && exists i :: 0 <= i < |videos| && DomManifest(videos).value in Srcs(videos[i])
  {
    if videos != [] {
      FirstManifestSrcSound(Srcs(videos[0]));
      if FirstManifestSrc(Srcs(videos[0])).None? {
        DomManifestSound(videos[1..]);
        if DomManifest(videos).Some? {
          var i :| 0 <= i < |videos[1..]| && DomManifest(videos).value in Srcs(videos[1..][i]);
          assert videos[1..][i] == videos[i + 1];
        }
      }
    }
  }

  lemma {:induction false} FirstOnCdnSound(urls: seq<string>)
    ensures FirstOnCdn(urls).Some? ==> FirstOnCdn(urls).value in urls && OnCdn(FirstOnCdn(urls).value)
  {
    if urls != [] && !OnCdn(urls[0]) {
      FirstOnCdnSound(urls[1..]);
    }
  }

  /** The manifest URL is never empty and names an m3u8 or mpd file; when
      no `<video>` element offers one it is a CDN playlist URL from the
      page source. */
  lemma ManifestInDomSound(videos: seq<VideoElement>, source: string)
    ensures ManifestInDom(videos, source).Some? ==>
              var u := ManifestInDom(videos, source).value;
              u != [] && (Contains(u, M3u8) || Contains(u, Mpd))
    ensures DomManifest(videos).None? && ManifestInDom(videos, source).Some? ==>
              var u := ManifestInDom(videos, source).value;
              IsPlaylistUrl(u) && OnCdn(u)
  {
    DomManifestSound(videos);
    FirstOnCdnSound(M3u8Urls(source));
    M3u8UrlsArePlaylists(source);
  }

  /** `_find_manifest_in_dom`. */
  method FindManifestInDom(videos: seq<VideoElement>, source: string) returns (r: Option<string>)
    ensures r == ManifestInDom(videos, source)
  {
    var i := 0;
    while i < |videos|
      invariant 0 <= i <= |videos|
      invariant DomManifest(videos) == DomManifest(videos[i..])
    {
      assert videos[i..][1..] == videos[i + 1..];
      var srcs := Srcs(videos[i]);
      var j := 0;
      while j < |srcs|
        invariant 0 <= j <= |srcs|
        invariant FirstManifestSrc(srcs) == FirstManifestSrc(srcs[j..])
      {
        assert srcs[j..][1..] == srcs[j + 1..];
        if IsManifestSrc(srcs[j]) {
          return Some(srcs[j]);
        }
        j := j + 1;
      }
      i := i + 1;
    }
    var matches := M3u8Urls(source);
    var k := 0;
    while k < |matches|
      invariant 0 <= k <= |matches|
      invariant FirstOnCdn(matches) == FirstOnCdn(matches[k..])
    {
      assert matches[k..][1..] == matches[k + 1..];
      if OnCdn(matches[k]) {
        return Some(matches[k]);
      }
      k := k + 1;
    }
    return None;
  }

  /** The URL the manifest strategy hands to yt-dlp: the network log's
      playlist first, else the one found in the DOM. */
  function ManifestUrl(page: Page): Option<string>
  {
    if page.browser.None? then None
    else if page.browser.value != [] then page.browser
    else ManifestInDom(page.videos, page.source)
  }

  /** `_try_download_from_manifest`. */
  method TryManifest(fs: FileSystem, target: Path, page: Page, ytdlp: string -> Option<nat>)
    returns (ok: bool, fs': FileSystem)
    requires WellFormed(fs) && |target| >= 1
    ensures ok <==> Succeeds(fs, target, ManifestUrl(page), ytdlp)
    ensures ok ==> page.browser.Some?
    ensures Lands(fs, fs', target, ok, ManifestUrl(page), ytdlp)
  {
    if page.browser.None? {
      return false, fs;
    }
    var url := page.browser;
    if url.value == [] {
      url := FindManifestInDom(page.videos, page.source);
    }
    ok, fs' := Attempt(fs, target, url, ytdlp);
  }

  // ---------------------------------------------------------------------
  // Strategy 4: yt-dlp on the item page
  // ---------------------------------------------------------------------

  function PageUrl(itemUrl: string): Option<string>
  {
    if itemUrl != [] then Some(itemUrl) else None
  }

  /** `_try_download_yt_dlp`. */
  method TryYtDlp(fs: FileSystem, target: Path, itemUrl: string, ytdlp: string -> Option<nat>)
    returns (ok: bool, fs': FileSystem)
    requires WellFormed(fs) && |target| >= 1
    ensures ok <==> Succeeds(fs, target, PageUrl(itemUrl), ytdlp)
    ensures ok ==> itemUrl != []
    ensures Lands(fs, fs', target, ok, PageUrl(itemUrl), ytdlp)
  {
    ok, fs' := Attempt(fs, target, PageUrl(itemUrl), ytdlp);
  }

  // ---------------------------------------------------------------------
  // The strategy chain
  // ---------------------------------------------------------------------

  function StrategyUrl(s: Strategy, page: Page, itemUrl: string): Option<string>
  {
    match s
    case Buttons => FirstHdHref(page.buttons)
    case VideoTag => TagSource(page.videoSrc)
    case Manifest => ManifestUrl(page)
    case YtDlp => PageUrl(itemUrl)
  }

  /** The first two strategies use the HTTP session, the last two yt-dlp. */
  function Getter(s: Strategy, fetch: string -> Option<nat>, ytdlp: string -> Option<nat>): string -> Option<nat>
  {
    if s == Buttons || s == VideoTag then fetch else ytdlp
  }

  /** What strategy `s` would receive: None when it has nothing to
      download or its download fails. */
  function Response(s: Strategy, page: Page, itemUrl: string, fetch: string -> Option<nat>, ytdlp: string -> Option<nat>): Option<nat>
  {
    var url := StrategyUrl(s, page, itemUrl);
    if url.Some? then Getter(s, fetch, ytdlp)(url.value) else None
  }

  /** One element of the `strategies` list, called. */
  method TryStrategy(s: Strategy, fs: FileSystem, target: Path, page: Page, itemUrl: string,
                     fetch: string -> Option<nat>, ytdlp: string -> Option<nat>)
    returns (ok: bool, fs': FileSystem)
    requires WellFormed(fs) && |target| >= 1
    ensures ok <==> Succeeds(fs, target, StrategyUrl(s, page, itemUrl), Getter(s, fetch, ytdlp))
    ensures Lands(fs, fs', target, ok, StrategyUrl(s, page, itemUrl), Getter(s, fetch, ytdlp))
  {
    match s
    case Buttons =>
      ok, fs' := TryButtons(fs, target, page.buttons, fetch);
    case VideoTag =>
      var clicked;
      clicked, ok, fs' := TryVideoTag(fs, target, page, fetch);
    case Manifest =>
      ok, fs' := TryManifest(fs, target, page, ytdlp);
    case YtDlp =>
      ok, fs' := TryYtDlp(fs, target, itemUrl, ytdlp);
  }

  // ---------------------------------------------------------------------
  // Subtitles
  // ---------------------------------------------------------------------

  /** Every track with a `src` before `i` failed to download, or the
      subtitle path is a directory no download can replace. */
  predicate TracksFailed(fs: FileSystem, path: Path, tracks: seq<string>, i: nat, fetch: string -> Option<nat>)
  {
    forall j | 0 <= j < i && j < |tracks| && tracks[j] != [] :: fetch(tracks[j]).None? || IsDir(fs, path)
  }

  /** One pass of the loop of `_download_subtitles`, for a track whose
      `src` is `src`. */
  method SubtitleTurn(fs: FileSystem, courseDir: Path, moduleDir: Path, counter: nat, title: string,
                      src: string, fetch: string -> Option<nat>, broken: set<Path>)
    returns (found: bool, fs': FileSystem)
    requires WellFormed(fs) && |moduleDir| >= 1 && NoFileOnPath(fs, moduleDir)
    ensures WellFormed(fs') && NoFileOnPath(fs', moduleDir)
    ensures found ==> IsFile(fs', SubtitlePath(moduleDir, counter, title))
    ensures !found ==> fetch(src).None? || IsDir(fs', SubtitlePath(moduleDir, counter, title))
    ensures IsDir(fs, SubtitlePath(moduleDir, counter, title)) ==> IsDir(fs', SubtitlePath(moduleDir, counter, title))
    ensures IsNonEmptyFile(fs, SubtitlePath(moduleDir, counter, title)) ==> found && fs' == MkDirs(fs, moduleDir)
    ensures ConfinedTo(fs, fs', moduleDir)
    ensures VideoKept(fs, fs', moduleDir, counter, title)
  {
    var path, fs1 := PlaceInModule(fs, courseDir, moduleDir, SubtitleName(counter, title), broken);
    assert path == SubtitlePath(moduleDir, counter, title) && Parent(path) == moduleDir;
    VideoSpared(counter, title);
    assert Join(moduleDir, VideoName(counter, title)) == VideoPath(moduleDir, counter, title);
    if IsNonEmptyFile(fs1, path) {
      return true, fs1;
    }
    found, fs' := DownloadFile(fs1, path, fetch(src));
    ConfinedWiden(fs1, fs', moduleDir, path);
    ConfinedTrans(fs, fs1, fs', moduleDir);
  }

  /** The video's entry, if there is one, is as it was. */
  ghost predicate VideoKept(fs: FileSystem, fs': FileSystem, moduleDir: Path, counter: nat, title: string)
  {
    VideoPath(moduleDir, counter, title) in fs ==>
      VideoPath(moduleDir, counter, title) in fs' && fs'[VideoPath(moduleDir, counter, title)] == fs[VideoPath(moduleDir, counter, title)]
  }

  /** The video file is neither the subtitle file nor a renumbering
      candidate of it, so saving the subtitles never moves the video. */
  lemma VideoSpared(counter: nat, title: string)
    ensures VideoName(counter, title) != SubtitleName(counter, title)
    ensures Spared(SubtitleName(counter, title), VideoName(counter, title))
  {
    assert |VideoName(counter, title)| + 3 == |SubtitleName(counter, title)|;
  }

  /** `_download_subtitles`: for each track with a `src`, the subtitle
      path is placed; an existing non-empty file there is returned as is,
      otherwise the first successful download ends the search. */
  method DownloadSubtitles(fs: FileSystem, courseDir: Path, moduleDir: Path, counter: nat, title: string,
                           tracks: seq<string>, fetch: string -> Option<nat>, broken: set<Path>)
    returns (subs: seq<Path>, fs': FileSystem)
    requires WellFormed(fs) && |moduleDir| >= 1 && NoFileOnPath(fs, moduleDir)
    ensures WellFormed(fs') && NoFileOnPath(fs', moduleDir)
    ensures subs == [] || subs == [SubtitlePath(moduleDir, counter, title)]
    ensures subs != [] ==> IsFile(fs', SubtitlePath(moduleDir, counter, title))
                           && exists i :: 0 <= i < |tracks| && tracks[i] != []
    ensures subs == [] ==> TracksFailed(fs', SubtitlePath(moduleDir, counter, title), tracks, |tracks|, fetch)
    ensures (forall i | 0 <= i < |tracks| :: tracks[i] == []) ==> subs == [] && fs' == fs
    ensures IsNonEmptyFile(fs, SubtitlePath(moduleDir, counter, title)) && (exists i :: 0 <= i < |tracks| && tracks[i] != []) ==>
              subs != [] && fs' == MkDirs(fs, moduleDir)
    ensures ConfinedTo(fs, fs', moduleDir)
    ensures VideoKept(fs, fs', moduleDir, counter, title)
  {
    var path := SubtitlePath(moduleDir, counter, title);
    subs := [];
    fs' := fs;
    var i := 0;
    while i < |tracks|
      invariant 0 <= i <= |tracks|
      invariant WellFormed(fs') && NoFileOnPath(fs', moduleDir)
      invariant TracksFailed(fs', path, tracks, i, fetch)
      invariant (forall j | 0 <= j < i :: tracks[j] == []) ==> fs' == fs
      invariant IsNonEmptyFile(fs, path) ==> forall j | 0 <= j < i :: tracks[j] == []
      invariant ConfinedTo(fs, fs', moduleDir)
      invariant VideoKept(fs, fs', moduleDir, counter, title)
    {
      if tracks[i] != [] {
        ghost var prev := fs';
        assert IsNonEmptyFile(fs, path) ==> prev == fs;
        var found;
        found, fs' := SubtitleTurn(fs', courseDir, moduleDir, counter, title, tracks[i], fetch, broken);
        ConfinedTrans(fs, prev, fs', moduleDir);
        if found {
          return [path], fs';
        }
        FailedStep(prev, fs', path, tracks, i, fetch);
      } else {
        FailedStep(fs', fs', path, tracks, i, fetch);
      }
      i := i + 1;
    }
  }

  lemma FailedStep(fs: FileSystem, fs': FileSystem, path: Path, tracks: seq<string>, i: nat, fetch: string -> Option<nat>)
    requires i < |tracks| && TracksFailed(fs, path, tracks, i, fetch)
    requires IsDir(fs, path) ==> IsDir(fs', path)
    requires tracks[i] != [] ==> fetch(tracks[i]).None? || IsDir(fs', path)
    ensures TracksFailed(fs', path, tracks, i + 1, fetch)
  {
  }

  // ---------------------------------------------------------------------
  // process
  // ---------------------------------------------------------------------

  /** Strategy number `k` is the first whose download delivers. */
  predicate FirstToDeliver(k: nat, page: Page, itemUrl: string, fetch: string -> Option<nat>, ytdlp: string -> Option<nat>)
  {
    && k < |Strategies|
    && Response(Strategies[k], page, itemUrl, fetch, ytdlp).Some?
    && forall j | 0 <= j < k :: Response(Strategies[j], page, itemUrl, fetch, ytdlp).None?
  }

  /** One pass of the strategy loop, seen through what each strategy
      receives. */
  method StrategyTurn(s: Strategy, fs: FileSystem, target: Path, page: Page, itemUrl: string,
                      fetch: string -> Option<nat>, ytdlp: string -> Option<nat>)
    returns (done: bool, fs': FileSystem)
    requires WellFormed(fs) && |target| >= 1 && NoFileOnPath(fs, Parent(target)) && !IsNonEmptyFile(fs, target)
    ensures done <==> Response(s, page, itemUrl, fetch, ytdlp).Some? && !IsDir(fs, target)
    ensures done ==> fs' == Saved(fs, target, Response(s, page, itemUrl, fetch, ytdlp).value)
    ensures !done ==> fs' == fs
    ensures WellFormed(fs')
  {
    done, fs' := TryStrategy(s, fs, target, page, itemUrl, fetch, ytdlp);
  }

  /** The `for strategy in strategies` loop: strategies run in order and
      the first that delivers ends it. */
  method RunStrategies(fs: FileSystem, target: Path, page: Page, itemUrl: string,
                       fetch: string -> Option<nat>, ytdlp: string -> Option<nat>)
    returns (done: bool, fs': FileSystem, ghost via: Option<nat>)
    requires WellFormed(fs) && |target| >= 1 && NoFileOnPath(fs, Parent(target)) && !IsNonEmptyFile(fs, target)
    ensures done <==> via.Some?
    ensures via.Some? ==> FirstToDeliver(via.value, page, itemUrl, fetch, ytdlp) && !IsDir(fs, target)
    ensures via.Some? ==> fs' == Saved(fs, target, Response(Strategies[via.value], page, itemUrl, fetch, ytdlp).value)
    ensures via.None? ==> fs' == fs && (IsDir(fs, target) || forall s :: Response(s, page, itemUrl, fetch, ytdlp).None?)
    ensures WellFormed(fs')
  {
    var i := 0;
    while i < |Strategies|
      invariant 0 <= i <= |Strategies|
      invariant !IsDir(fs, target) ==> forall j | 0 <= j < i :: Response(Strategies[j], page, itemUrl, fetch, ytdlp).None?
    {
      done, fs' := StrategyTurn(Strategies[i], fs, target, page, itemUrl, fetch, ytdlp);
      if done {
        return true, fs', Some(i);
      }
      i := i + 1;
    }
    forall s ensures !IsDir(fs, target) ==> Response(s, page, itemUrl, fetch, ytdlp).None? {
      assert s == Strategies[match s case Buttons => 0 case VideoTag => 1 case Manifest => 2 case YtDlp => 3];
    }
    return false, fs, None;
  }

  /** `for sub in subs: new_files.append((sub, "subtitle"))`. */
  method SubtitleFiles(subs: seq<Path>) returns (files: seq<(Path, FileKind)>)
    ensures |files| == |subs| && forall j | 0 <= j < |subs| :: files[j] == (subs[j], Subtitle)
  {
    files := [];
    for k := 0 to |subs|
      invariant |files| == k && forall j | 0 <= j < k :: files[j] == (subs[j], Subtitle)
    {
      files := files + [(subs[k], Subtitle)];
    }
  }

  /** The second half of `VideoExtractor.process`: the files list starts
      with the subtitles saved (`subs`, at most the one file `sub`); an
      existing non-empty video ends the call, otherwise the strategies are
      tried and a delivered video is appended. */
  method Deliver(fs: FileSystem, main: Path, subs: seq<Path>, sub: Path, page: Page, itemUrl: string,
                 fetch: string -> Option<nat>, ytdlp: string -> Option<nat>)
    returns (ok: bool, count: nat, files: seq<(Path, FileKind)>, fs': FileSystem, ghost via: Option<nat>)
    requires WellFormed(fs) && |main| >= 1 && NoFileOnPath(fs, Parent(main))
    requires subs == [] || subs == [sub]
    ensures WellFormed(fs')
    ensures count == (if main in fs' then 1 else 0)
    ensures ok <==> files != [] || IsNonEmptyFile(fs', main)
    ensures files == (if subs == [] then [] else [(sub, Subtitle)]) + (if via.Some? then [(main, VideoFile)] else [])
    ensures IsNonEmptyFile(fs, main) ==> ok && via.None? && fs' == fs
    ensures via.Some? ==>
              FirstToDeliver(via.value, page, itemUrl, fetch, ytdlp) && !IsNonEmptyFile(fs, main)
              && fs' == Saved(fs, main, Response(Strategies[via.value], page, itemUrl, fetch, ytdlp).value)
    ensures via.None? ==>
              fs' == fs && (IsNonEmptyFile(fs, main) || IsDir(fs, main) || forall s :: Response(s, page, itemUrl, fetch, ytdlp).None?)
  {
    files := SubtitleFiles(subs);
    assert files == if subs == [] then [] else [(sub, Subtitle)];
    if IsNonEmptyFile(fs, main) {
      return true, 1, files, fs, None;
    }
    var done;
    done, fs', via := RunStrategies(fs, main, page, itemUrl, fetch, ytdlp);
    if done {
      files := files + [(main, VideoFile)];
      return true, 1, files, fs', via;
    }
    ok := |files| > 0;
    count := if main in fs then 1 else 0;
  }

  /** `VideoExtractor.process`.  `before` is the tree the strategies see
      (after the video path is placed and the subtitles are tried), `via`
      the number of the strategy that delivered the video, `subtitled` says
      whether a subtitle file was saved. */
  method Process(fs: FileSystem, courseDir: Path, moduleDir: Path, counter: nat, title: string, itemUrl: string,
                 page: Page, fetch: string -> Option<nat>, ytdlp: string -> Option<nat>, broken: set<Path>)
    returns (ok: bool, count: nat, files: seq<(Path, FileKind)>, fs': FileSystem,
             ghost placed: FileSystem, ghost before: FileSystem, ghost subtitled: bool, ghost via: Option<nat>)
    requires WellFormed(fs) && |moduleDir| >= 1 && NoFileOnPath(fs, moduleDir)
    ensures Vacant(fs, courseDir, moduleDir, VideoName(counter, title), broken) ==>
              VideoPath(moduleDir, counter, title) !in placed
    ensures !Vacant(fs, courseDir, moduleDir, VideoName(counter, title), broken) ==>
              VideoPath(moduleDir, counter, title) in placed
              && exists src :: Candidate(MkDirs(fs, moduleDir), courseDir, moduleDir, VideoName(counter, title), src)
                               && placed[VideoPath(moduleDir, counter, title)] == MkDirs(fs, moduleDir)[src]
    ensures VideoKept(placed, before, moduleDir, counter, title)
    ensures IsNonEmptyFile(placed, VideoPath(moduleDir, counter, title)) ==> ok && count == 1 && via.None? && fs' == before
    ensures WellFormed(fs')
    ensures count == (if VideoPath(moduleDir, counter, title) in fs' then 1 else 0)
    ensures ok <==> files != [] || IsNonEmptyFile(fs', VideoPath(moduleDir, counter, title))
    ensures files == (if subtitled then [(SubtitlePath(moduleDir, counter, title), Subtitle)] else [])
                     + (if via.Some? then [(VideoPath(moduleDir, counter, title), VideoFile)] else [])
    ensures subtitled ==> IsFile(before, SubtitlePath(moduleDir, counter, title))
                          && exists i :: 0 <= i < |page.tracks| && page.tracks[i] != []
    ensures !subtitled ==> TracksFailed(before, SubtitlePath(moduleDir, counter, title), page.tracks, |page.tracks|, fetch)
    ensures IsNonEmptyFile(before, VideoPath(moduleDir, counter, title)) ==> ok && via.None? && fs' == before
    ensures via.Some? ==>
              FirstToDeliver(via.value, page, itemUrl, fetch, ytdlp)
              && !IsNonEmptyFile(before, VideoPath(moduleDir, counter, title))
              && fs' == Saved(before, VideoPath(moduleDir, counter, title),
                              Response(Strategies[via.value], page, itemUrl, fetch, ytdlp).value)
    ensures via.None? ==>
              fs' == before
              && (IsNonEmptyFile(before, VideoPath(moduleDir, counter, title))
                  || IsDir(before, VideoPath(moduleDir, counter, title))
                  || forall s :: Response(s, page, itemUrl, fetch, ytdlp).None?)
    ensures WellFormed(before) && NoFileOnPath(before, moduleDir) && ConfinedTo(fs, before, moduleDir)
    ensures (forall i | 0 <= i < |page.tracks| :: page.tracks[i] == []) ==>
              (VideoPath(moduleDir, counter, title) in MkDirs(fs, moduleDir) ==> before == MkDirs(fs, moduleDir))
              && (Vacant(fs, courseDir, moduleDir, VideoName(counter, title), broken) ==>
                    VideoPath(moduleDir, counter, title) !in before)
  {
    var main, fs1 := PlaceInModule(fs, courseDir, moduleDir, VideoName(counter, title), broken);
    assert main == VideoPath(moduleDir, counter, title) && Parent(main) == moduleDir;
    placed := fs1;
    var subs, fs2 := DownloadSubtitles(fs1, courseDir, moduleDir, counter, title, page.tracks, fetch, broken);
    before, subtitled := fs2, subs != [];
    ConfinedTrans(fs, fs1, fs2, moduleDir);
    ok, count, files, fs', via := Deliver(fs2, main, subs, SubtitlePath(moduleDir, counter, title), page, itemUrl, fetch, ytdlp);
  }
}
