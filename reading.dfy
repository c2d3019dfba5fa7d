/** The reading extractor (coursera/extractors/reading.py).  The browser is
    replaced by what the page shows it (a `ReadingPage` value), the HTTP
    session by `fetch` (the size of the body the server sends, or None) and
    the page template of the base extractor by the uninterpreted `wrap`. */
module Reading {
  import opened Base
  import opened Fs
  import opened Utils
  import opened Files
  import opened Common

  // ---------------------------------------------------------------------
  // The page as the extractor sees it
  // ---------------------------------------------------------------------

  /** The element a CSS selector finds: whether it is displayed, and its
      `innerHTML` attribute (None when the attribute is missing). */
  datatype Element = Element(displayed: bool, innerHtml: Option<string>)

  /** The page's `<body>`: the `src` of each of its images, and its inner
      HTML ("" when missing) for any choice of those sources. */
  datatype Body = Body(srcs: seq<string>, render: seq<string> -> string)

  /** Everything the extractor reads from the browser.
      - `find`: the element each selector finds first, None when none;
      - `links`: the (href, text) of each `a[href*='asset']` anchor, with
        "" for a missing href;
      - `body`: the `<body>`, None when it cannot be found;
      - `stylesheets`: the (rel, href) of each `<link>`, as the asset
        store reads them. */
  datatype ReadingPage = ReadingPage(find: string -> Option<Element>, links: seq<(string, string)>,
                                     body: Option<Body>, stylesheets: seq<(string, string)>)

  /** The label `process` attaches to the page it saves. */
  const ReadingKind := "reading"

  // ---------------------------------------------------------------------
  // _extract_content
  // ---------------------------------------------------------------------

  /** The selectors tried for the reading's container, in order. */
  const ContentSelectors: seq<string> := ["div[class*='rc-CML']", "div.content", "article", "main"]

  predicate Shown(find: string -> Option<Element>, selector: string)
  {
    find(selector).Some? && find(selector).value.displayed
  }

  /** The index of the first selector whose element is displayed. */
  function FirstShown(find: string -> Option<Element>, selectors: seq<string>): (r: Option<nat>)
    ensures r.Some? ==> r.value < |selectors| && Shown(find, selectors[r.value])
    ensures r.None? ==> forall i | 0 <= i < |selectors| :: !Shown(find, selectors[i])
  {
    if selectors == [] then None
    else if Shown(find, selectors[0]) then Some(0)
    else match FirstShown(find, selectors[1..])
         case None => None
         case Some(i) => Some(i + 1)
  }

  /** No selector before the chosen one shows its element. */
  lemma {:induction false} FirstShownIsFirst(find: string -> Option<Element>, selectors: seq<string>)
    ensures FirstShown(find, selectors).Some? ==>
              forall j | 0 <= j < FirstShown(find, selectors).value :: !Shown(find, selectors[j])
  {
    if selectors != [] && !Shown(find, selectors[0]) {
      FirstShownIsFirst(find, selectors[1..]);
      var r := FirstShown(find, selectors[1..]);
      if r.Some? {
        forall j | 0 <= j < r.value + 1
          ensures !Shown(find, selectors[j])
        {
          if j > 0 {
            assert selectors[j] == selectors[1..][j - 1];
          }
        }
      }
    }
  }

  /** `_extract_content`: the inner HTML of the first displayed container
      and the selector that found it, or (None, None). */
  function ExtractContent(find: string -> Option<Element>): (r: (Option<string>, Option<string>))
    ensures r.1.None? <==> forall i | 0 <= i < |ContentSelectors| :: !Shown(find, ContentSelectors[i])
    ensures r.1.None? ==> r.0.None?
    ensures r.1.Some? ==> exists i | 0 <= i < |ContentSelectors| ::
              r.1.value == ContentSelectors[i] && Shown(find, ContentSelectors[i])
              && r.0 == find(ContentSelectors[i]).value.innerHtml
              && forall j | 0 <= j < i :: !Shown(find, ContentSelectors[j])
  {
    match FirstShown(find, ContentSelectors)
    case None => (None, None)
    case Some(i) =>
      FirstShownIsFirst(find, ContentSelectors);
      (find(ContentSelectors[i]).value.innerHtml, Some(ContentSelectors[i]))
  }

  /** `content and sel_used`: a container was found and its HTML is not
      empty. */
  predicate HasContent(find: string -> Option<Element>)
  {
    var (content, selector) := ExtractContent(find);
    content.Some? && content.value != [] && selector.Some? && selector.value != []
  }

  // ---------------------------------------------------------------------
  // _download_attachments
  // ---------------------------------------------------------------------

  /** `f"{counter:03d}_{name}{Path(href).suffix}"` for a link (href, text),
      the name being the sanitised text or the sanitised stem of the href. */
  function AttachmentName(counter: nat, link: (string, string)): Name
  {
    Pad3(counter) + "_" + LinkName(link.1, link.0) + Suffix(PathName(link.0))
  }

  /** With blank link text an href `<dir>/<stem>.<ext>` whose stem is
      already a clean name is stored as `<counter>_<stem>.<ext>`. */
  lemma AttachmentNameFromHref(counter: nat, text: string, dir: string, stem: string, ext: string)
    requires Strip(text) == [] && stem != [] && '/' !in stem && '.' !in stem && IsSanitized(stem)
    requires ext != [] && '/' !in ext && '.' !in ext
    ensures AttachmentName(counter, (dir + "/" + stem + "." + ext, text)) == Pad3(counter) + "_" + stem + "." + ext
  {
    var file := stem + "." + ext;
    var href := dir + "/" + stem + "." + ext;
    assert href == dir + "/" + file;
    LastSegment(dir, file);
    StemAndSuffix(stem, ext);
    assert LinkName(text, href) == stem by {
      SanitizedFixed(stem);
    }
  }

  lemma LastSegment(dir: string, file: string)
    requires file != [] && file != "." && '/' !in file
    ensures PathName(dir + "/" + file) == file
  {
    PathPartsJoin(dir, file);
    PathNameOfSegment(file);
  }

  lemma StemAndSuffix(stem: string, ext: string)
    requires stem != [] && '.' !in stem && ext != [] && '.' !in ext
    ensures Stem(stem + "." + ext) == stem && Suffix(stem + "." + ext) == "." + ext
  {
    var file := stem + "." + ext;
    assert file == stem + ['.'] + ext;
    LastIndexAt(stem, '.', ext);
    assert file[..|stem|] == stem && file[|stem|..] == "." + ext;
  }

  /** One anchor of `_download_attachments`: an href that is present and
      not yet downloaded is placed in the module under its numbered name
      and downloaded when that file is absent; `added` says the download
      ran and succeeded. */
  method AttachOne(fs: FileSystem, courseDir: Path, moduleDir: Path, counter: nat, link: (string, string),
                   downloaded: set<string>, fetch: string -> Option<nat>, broken: set<Path>)
    returns (tried: bool, added: bool, fs': FileSystem)
    requires WellFormed(fs) && |moduleDir| >= 1 && NoFileOnPath(fs, moduleDir)
    ensures tried <==> link.0 != [] && link.0 !in downloaded
    ensures added ==> tried && fetch(link.0).Some?
    ensures tried && fetch(link.0).Some? ==> moduleDir + [AttachmentName(counter, link)] in fs'
    ensures (tried && fetch(link.0).Some? && Vacant(fs, courseDir, moduleDir, AttachmentName(counter, link), broken)) ==> added
    ensures !tried ==> fs' == fs
    ensures WellFormed(fs') && NoFileOnPath(fs', moduleDir) && ConfinedTo(fs, fs', moduleDir)
    ensures ConfinedTo(fs, fs', moduleDir + [AttachmentName(counter, link)])
  {
    tried, added, fs' := false, false, fs;
    var (href, text) := link;
    if href == [] || href in downloaded {
      return;
    }
    tried := true;
    var filename := AttachmentName(counter, link);
    var filepath;
    filepath, fs' := PlaceInModule(fs, courseDir, moduleDir, filename, broken);
    assert Join(moduleDir, filename) == moduleDir + [filename];
    ghost var fs1 := fs';
    if filepath !in fs' {
      added, fs' := FetchInto(fs', moduleDir, filename, fetch(href));
      ConfinedTrans(fs, fs1, fs', filepath);
    }
    ConfinedWiden(fs, fs', moduleDir, filepath);
  }

  /** `url_to_local[h] == name` where `name` is the stored name of one of
      the first `n` anchors with href `h`. */
  predicate NamedBy(links: seq<(string, string)>, n: nat, counter: nat, e: (string, string))
  {
    exists l | 0 <= l < n && l < |links| :: links[l].0 == e.0 && e.1 == AttachmentName(counter, links[l])
  }

  /** One of the first `n` anchors has href `h`. */
  predicate HrefAmong(links: seq<(string, string)>, n: nat, h: string)
  {
    exists l | 0 <= l < n && l < |links| :: links[l].0 == h
  }

  /** What `_download_attachments` has established after its first `i`
      anchors, starting from the set `downloaded0`. */
  predicate AttachLoop(links: seq<(string, string)>, i: nat, counter: nat, downloaded0: set<string>,
                       downloaded: set<string>, count: nat, urlMap: Assoc, fetch: string -> Option<nat>)
  {
    NewDownloads(links, i, downloaded0, downloaded, count, fetch)
    && MapEntries(links, i, counter, downloaded0, urlMap)
    && MapCovers(links, i, downloaded0, urlMap)
  }

  /** The new hrefs are hrefs of anchors seen so far whose download
      succeeded, and the count is their number. */
  predicate NewDownloads(links: seq<(string, string)>, i: nat, downloaded0: set<string>,
                         downloaded: set<string>, count: nat, fetch: string -> Option<nat>)
  {
    i <= |links| && downloaded0 <= downloaded && count == |downloaded - downloaded0| && count <= i
    && forall h | h in downloaded - downloaded0 :: HrefAmong(links, i, h) && h != [] && fetch(h).Some?
  }

  /** Each key of the dictionary is a present href that was not downloaded
      before, mapped to the name of an anchor seen so far with that href. */
  predicate MapEntries(links: seq<(string, string)>, i: nat, counter: nat, downloaded0: set<string>, urlMap: Assoc)
  {
    DistinctKeys(urlMap)
    && forall j | 0 <= j < |urlMap| ::
         urlMap[j].0 != [] && urlMap[j].0 !in downloaded0 && NamedBy(links, i, counter, urlMap[j])
  }

  /** Each present href seen so far that was not downloaded before is a key. */
  predicate MapCovers(links: seq<(string, string)>, i: nat, downloaded0: set<string>, urlMap: Assoc)
  {
    forall l | 0 <= l < i && l < |links| && links[l].0 != [] && links[l].0 !in downloaded0 :: HasKey(urlMap, links[l].0)
  }

  lemma AttachStep(links: seq<(string, string)>, i: nat, counter: nat, downloaded0: set<string>,
                   downloaded: set<string>, count: nat, urlMap: Assoc, fetch: string -> Option<nat>,
                   tried: bool, added: bool, downloaded': set<string>, count': nat, urlMap': Assoc)
    requires i < |links| && AttachLoop(links, i, counter, downloaded0, downloaded, count, urlMap, fetch)
    requires tried <==> links[i].0 != [] && links[i].0 !in downloaded
    requires added ==> tried && fetch(links[i].0).Some?
    requires downloaded' == if added then downloaded + {links[i].0} else downloaded
    requires count' == if added then count + 1 else count
    requires urlMap' == if tried then Put(urlMap, links[i].0, AttachmentName(counter, links[i])) else urlMap
    ensures AttachLoop(links, i + 1, counter, downloaded0, downloaded', count', urlMap', fetch)
  {
    DownloadedStep(links, i, downloaded0, downloaded, count, fetch, added, downloaded', count');
    EntriesStep(links, i, counter, downloaded0, downloaded, urlMap, tried, urlMap');
    KeysStep(links, i, downloaded0, downloaded, count, urlMap, fetch, tried, urlMap');
  }

  lemma DownloadedStep(links: seq<(string, string)>, i: nat, downloaded0: set<string>, downloaded: set<string>,
                       count: nat, fetch: string -> Option<nat>, added: bool, downloaded': set<string>, count': nat)
    requires i < |links| && NewDownloads(links, i, downloaded0, downloaded, count, fetch)
    requires added ==> links[i].0 != [] && links[i].0 !in downloaded && fetch(links[i].0).Some?
    requires downloaded' == if added then downloaded + {links[i].0} else downloaded
    requires count' == if added then count + 1 else count
    ensures NewDownloads(links, i + 1, downloaded0, downloaded', count', fetch)
  {
    var href := links[i].0;
    if added {
      CardAdd(downloaded - downloaded0, href);
      assert (downloaded + {href}) - downloaded0 == (downloaded - downloaded0) + {href};
    }
    forall h | h in downloaded' - downloaded0
      ensures HrefAmong(links, i + 1, h)
    {
      if h != href {
        var l :| 0 <= l < i && l < |links| && links[l].0 == h;
      }
    }
  }

  lemma EntriesStep(links: seq<(string, string)>, i: nat, counter: nat, downloaded0: set<string>,
                    downloaded: set<string>, urlMap: Assoc, tried: bool, urlMap': Assoc)
    requires i < |links| && MapEntries(links, i, counter, downloaded0, urlMap) && downloaded0 <= downloaded
    requires tried ==> links[i].0 != [] && links[i].0 !in downloaded
    requires urlMap' == if tried then Put(urlMap, links[i].0, AttachmentName(counter, links[i])) else urlMap
    ensures MapEntries(links, i + 1, counter, downloaded0, urlMap')
  {
    var href := links[i].0;
    forall j | 0 <= j < |urlMap'|
      ensures urlMap'[j].0 != [] && urlMap'[j].0 !in downloaded0 && NamedBy(links, i + 1, counter, urlMap'[j])
    {
      if tried && urlMap'[j].0 == href {
        assert urlMap'[j] == (href, AttachmentName(counter, links[i]));
      } else {
        assert urlMap'[j] == urlMap[j];
        var l :| 0 <= l < i && l < |links| && links[l].0 == urlMap[j].0 && urlMap[j].1 == AttachmentName(counter, links[l]);
      }
    }
  }

  lemma KeysStep(links: seq<(string, string)>, i: nat, downloaded0: set<string>, downloaded: set<string>,
                 count: nat, urlMap: Assoc, fetch: string -> Option<nat>, tried: bool, urlMap': Assoc)
    requires i < |links| && NewDownloads(links, i, downloaded0, downloaded, count, fetch)
    requires MapCovers(links, i, downloaded0, urlMap) && DistinctKeys(urlMap)
    requires tried <==> links[i].0 != [] && links[i].0 !in downloaded
    requires tried ==> HasKey(urlMap', links[i].0)
    requires |urlMap| <= |urlMap'| && forall j | 0 <= j < |urlMap| :: urlMap'[j].0 == urlMap[j].0
    ensures MapCovers(links, i + 1, downloaded0, urlMap')
  {
    forall l | 0 <= l < i + 1 && links[l].0 != [] && links[l].0 !in downloaded0
      ensures HasKey(urlMap', links[l].0)
    {
      var key := links[l].0;
      if l == i && !tried {
        assert key in downloaded - downloaded0;
        var m :| 0 <= m < i && m < |links| && links[m].0 == key;
        KeptKey(urlMap, urlMap', key);
      } else if l < i {
        KeptKey(urlMap, urlMap', key);
      }
    }
  }

  /** One turn of the loop of `_download_attachments`, with its
      bookkeeping: a tried anchor enters the dictionary, a successful
      download enters the set and the count. */
  method AttachTurn(fs: FileSystem, courseDir: Path, moduleDir: Path, counter: nat, links: seq<(string, string)>, i: nat,
                    downloaded0: set<string>, downloaded: set<string>, count: nat, urlMap: Assoc,
                    fetch: string -> Option<nat>, broken: set<Path>)
    returns (downloaded': set<string>, count': nat, urlMap': Assoc, fs': FileSystem)
    requires i < |links| && AttachLoop(links, i, counter, downloaded0, downloaded, count, urlMap, fetch)
    requires WellFormed(fs) && |moduleDir| >= 1 && NoFileOnPath(fs, moduleDir)
    ensures AttachLoop(links, i + 1, counter, downloaded0, downloaded', count', urlMap', fetch)
    ensures WellFormed(fs') && NoFileOnPath(fs', moduleDir) && ConfinedTo(fs, fs', moduleDir)
    ensures AttachStepped(links[i], courseDir, moduleDir, counter, fetch, broken, fs, fs', downloaded, downloaded')
  {
    var tried, added;
    tried, added, fs' := AttachOne(fs, courseDir, moduleDir, counter, links[i], downloaded, fetch, broken);
    downloaded', count', urlMap' := downloaded, count, urlMap;
    if added {
      downloaded', count' := downloaded + {links[i].0}, count + 1;
    }
    if tried {
      urlMap' := Put(urlMap, links[i].0, AttachmentName(counter, links[i]));
    }
    AttachStep(links, i, counter, downloaded0, downloaded, count, urlMap, fetch, tried, added, downloaded', count', urlMap');
  }

  /** What one anchor of `_download_attachments` does to the tree and to
      the downloaded set: the set grows by that href at most, and by exactly
      that href when it was present and new, its target was vacant and its
      fetch succeeded; the tree changes only at and below that target. */
  ghost predicate AttachStepped(link: (string, string), courseDir: Path, moduleDir: Path, counter: nat,
                                fetch: string -> Option<nat>, broken: set<Path>,
                                before: FileSystem, after: FileSystem, seen: set<string>, seen': set<string>)
  {
    var name := AttachmentName(counter, link);
    seen <= seen' <= seen + {link.0}
    && (link.0 != [] && link.0 !in seen && fetch(link.0).Some? && Vacant(before, courseDir, moduleDir, name, broken)
        ==> link.0 in seen')
    && ConfinedTo(before, after, moduleDir + [name])
  }

  /** The trees and downloaded sets `_download_attachments` passes through
      over its first `i` anchors, each step as `AttachStepped` says. */
  ghost predicate AttachTraced(links: seq<(string, string)>, i: nat, courseDir: Path, moduleDir: Path, counter: nat,
                               fetch: string -> Option<nat>, broken: set<Path>,
                               trace: seq<FileSystem>, seen: seq<set<string>>)
  {
    i <= |links| && |trace| == i + 1 && |seen| == i + 1
    && forall l | 0 <= l < i ::
         AttachStepped(links[l], courseDir, moduleDir, counter, fetch, broken, trace[l], trace[l + 1], seen[l], seen[l + 1])
  }

  lemma AttachTracedSnoc(links: seq<(string, string)>, i: nat, courseDir: Path, moduleDir: Path, counter: nat,
                         fetch: string -> Option<nat>, broken: set<Path>,
                         trace: seq<FileSystem>, seen: seq<set<string>>, after: FileSystem, seen': set<string>)
    requires i < |links| && AttachTraced(links, i, courseDir, moduleDir, counter, fetch, broken, trace, seen)
    requires AttachStepped(links[i], courseDir, moduleDir, counter, fetch, broken, trace[i], after, seen[i], seen')
    ensures AttachTraced(links, i + 1, courseDir, moduleDir, counter, fetch, broken, trace + [after], seen + [seen'])
  {
    var t, z := trace + [after], seen + [seen'];
    forall l | 0 <= l < i + 1
      ensures AttachStepped(links[l], courseDir, moduleDir, counter, fetch, broken, t[l], t[l + 1], z[l], z[l + 1])
    {
      if l < i {
        AttachSteppedSame(links[l], courseDir, moduleDir, counter, fetch, broken,
                          trace[l], trace[l + 1], seen[l], seen[l + 1], t[l], t[l + 1], z[l], z[l + 1]);
      } else {
        AttachSteppedSame(links[l], courseDir, moduleDir, counter, fetch, broken,
                          trace[l], after, seen[l], seen', t[l], t[l + 1], z[l], z[l + 1]);
      }
    }
  }

  lemma AttachSteppedSame(link: (string, string), courseDir: Path, moduleDir: Path, counter: nat,
                          fetch: string -> Option<nat>, broken: set<Path>,
                          before: FileSystem, after: FileSystem, seen: set<string>, seen': set<string>,
                          before2: FileSystem, after2: FileSystem, seen2: set<string>, seen2': set<string>)
    requires AttachStepped(link, courseDir, moduleDir, counter, fetch, broken, before, after, seen, seen')
    requires before2 == before && after2 == after && seen2 == seen && seen2' == seen'
    ensures AttachStepped(link, courseDir, moduleDir, counter, fetch, broken, before2, after2, seen2, seen2')
  {
  }

  /** The downloaded sets of a trace only grow. */
  lemma {:induction false} AttachSeenGrow(links: seq<(string, string)>, i: nat, courseDir: Path, moduleDir: Path,
                                          counter: nat, fetch: string -> Option<nat>, broken: set<Path>,
                                          trace: seq<FileSystem>, seen: seq<set<string>>, l: nat)
    requires AttachTraced(links, i, courseDir, moduleDir, counter, fetch, broken, trace, seen) && l <= i
    ensures seen[l] <= seen[i]
    decreases i - l
  {
    if l < i {
      assert AttachStepped(links[l], courseDir, moduleDir, counter, fetch, broken, trace[l], trace[l + 1], seen[l], seen[l + 1]);
      AttachSeenGrow(links, i, courseDir, moduleDir, counter, fetch, broken, trace, seen, l + 1);
    }
  }

  /** Every anchor whose href was present and new when its turn came, whose
      target was vacant then and whose fetch succeeds, ends in the
      downloaded set. */
  lemma AttachReached(links: seq<(string, string)>, courseDir: Path, moduleDir: Path, counter: nat,
                      fetch: string -> Option<nat>, broken: set<Path>,
                      trace: seq<FileSystem>, seen: seq<set<string>>)
    requires AttachTraced(links, |links|, courseDir, moduleDir, counter, fetch, broken, trace, seen)
    ensures forall l | 0 <= l < |links| && links[l].0 != [] && links[l].0 !in seen[l] && fetch(links[l].0).Some?
                       && Vacant(trace[l], courseDir, moduleDir, AttachmentName(counter, links[l]), broken) ::
              links[l].0 in seen[|links|]
  {
    forall l | 0 <= l < |links| && links[l].0 != [] && links[l].0 !in seen[l] && fetch(links[l].0).Some?
               && Vacant(trace[l], courseDir, moduleDir, AttachmentName(counter, links[l]), broken)
      ensures links[l].0 in seen[|links|]
    {
      assert AttachStepped(links[l], courseDir, moduleDir, counter, fetch, broken, trace[l], trace[l + 1], seen[l], seen[l + 1]);
      AttachSeenGrow(links, |links|, courseDir, moduleDir, counter, fetch, broken, trace, seen, l + 1);
    }
  }

  /** `_download_attachments` over the page's asset anchors: present hrefs
      not yet downloaded are placed in the module under their numbered name
      and fetched when absent; the count and the downloaded set grow only
      for a download that ran and succeeded, and the returned dictionary
      maps exactly the hrefs tried to a stored name of one of their
      anchors. */
  method DownloadAttachments(fs: FileSystem, courseDir: Path, moduleDir: Path, counter: nat,
                             links: seq<(string, string)>, downloaded: set<string>,
                             fetch: string -> Option<nat>, broken: set<Path>)
    returns (count: nat, urlMap: Assoc, downloaded': set<string>, fs': FileSystem,
             ghost trace: seq<FileSystem>, ghost seen: seq<set<string>>)
    requires WellFormed(fs) && |moduleDir| >= 1 && NoFileOnPath(fs, moduleDir)
    ensures downloaded <= downloaded' && count == |downloaded' - downloaded| && count <= |links|
    ensures forall h | h in downloaded' - downloaded :: HrefAmong(links, |links|, h) && h != [] && fetch(h).Some?
    ensures DistinctKeys(urlMap)
    ensures forall j | 0 <= j < |urlMap| ::
              urlMap[j].0 != [] && urlMap[j].0 !in downloaded && NamedBy(links, |links|, counter, urlMap[j])
    ensures forall l | 0 <= l < |links| && links[l].0 != [] && links[l].0 !in downloaded :: HasKey(urlMap, links[l].0)
    ensures WellFormed(fs') && NoFileOnPath(fs', moduleDir) && ConfinedTo(fs, fs', moduleDir)
    ensures AttachTraced(links, |links|, courseDir, moduleDir, counter, fetch, broken, trace, seen)
    ensures trace[0] == fs && trace[|links|] == fs' && seen[0] == downloaded && seen[|links|] == downloaded'
    ensures forall l | 0 <= l < |links| && links[l].0 != [] && links[l].0 !in seen[l] && fetch(links[l].0).Some?
                       && Vacant(trace[l], courseDir, moduleDir, AttachmentName(counter, links[l]), broken) ::
              links[l].0 in downloaded'
  {
    count, urlMap, downloaded', fs' := 0, [], downloaded, fs;
    trace, seen := [fs], [downloaded];
    var i := 0;
    while i < |links|
      invariant AttachRun(fs, courseDir, moduleDir, counter, links, i, downloaded, downloaded', count, urlMap, fetch, broken,
                          fs', trace, seen)
    {
      ghost var prev := fs';
      ghost var before := downloaded';
      downloaded', count, urlMap, fs' :=
        AttachTurn(fs', courseDir, moduleDir, counter, links, i, downloaded, downloaded', count, urlMap, fetch, broken);
      AttachRunSnoc(fs, courseDir, moduleDir, counter, links, i, downloaded, before, downloaded', count, urlMap, fetch, broken,
                    prev, fs', trace, seen);
      trace, seen := trace + [fs'], seen + [downloaded'];
      i := i + 1;
    }
    AttachReached(links, courseDir, moduleDir, counter, fetch, broken, trace, seen);
  }

  /** The state of `_download_attachments` after its first `i` anchors. */
  ghost predicate AttachRun(fs: FileSystem, courseDir: Path, moduleDir: Path, counter: nat, links: seq<(string, string)>, i: nat,
                            downloaded0: set<string>, downloaded: set<string>, count: nat, urlMap: Assoc,
                            fetch: string -> Option<nat>, broken: set<Path>,
                            fs': FileSystem, trace: seq<FileSystem>, seen: seq<set<string>>)
  {
    && i <= |links| && AttachLoop(links, i, counter, downloaded0, downloaded, count, urlMap, fetch)
    && WellFormed(fs') && NoFileOnPath(fs', moduleDir) && ConfinedTo(fs, fs', moduleDir)
    && AttachTraced(links, i, courseDir, moduleDir, counter, fetch, broken, trace, seen)
    && trace[0] == fs && trace[i] == fs' && seen[0] == downloaded0 && seen[i] == downloaded
  }

  lemma AttachRunSnoc(fs: FileSystem, courseDir: Path, moduleDir: Path, counter: nat, links: seq<(string, string)>, i: nat,
                      downloaded0: set<string>, downloaded: set<string>, downloaded': set<string>, count': nat, urlMap': Assoc,
                      fetch: string -> Option<nat>, broken: set<Path>,
                      prev: FileSystem, fs': FileSystem, trace: seq<FileSystem>, seen: seq<set<string>>)
    requires i < |links|
    requires ConfinedTo(fs, prev, moduleDir) && AttachTraced(links, i, courseDir, moduleDir, counter, fetch, broken, trace, seen)
    requires trace[0] == fs && trace[i] == prev && seen[0] == downloaded0 && seen[i] == downloaded
    requires AttachLoop(links, i + 1, counter, downloaded0, downloaded', count', urlMap', fetch)
    requires WellFormed(fs') && NoFileOnPath(fs', moduleDir) && ConfinedTo(prev, fs', moduleDir)
    requires AttachStepped(links[i], courseDir, moduleDir, counter, fetch, broken, prev, fs', downloaded, downloaded')
    ensures AttachRun(fs, courseDir, moduleDir, counter, links, i + 1, downloaded0, downloaded', count', urlMap', fetch, broken,
                      fs', trace + [fs'], seen + [downloaded'])
  {
    ConfinedTrans(fs, prev, fs', moduleDir);
    AttachTracedSnoc(links, i, courseDir, moduleDir, counter, fetch, broken, trace, seen, fs', downloaded');
    SnocEnds(trace, fs');
    SnocEnds(seen, downloaded');
  }

  // ---------------------------------------------------------------------
  // _localize_reading_assets
  // ---------------------------------------------------------------------

  /** `for href, local_name in url_map.items(): html = html.replace(href,
      local_name)`: each pair in dictionary order, over the result of the
      previous one. */
  function ReplaceEach(html: string, m: Assoc): string
    requires KeysNonEmpty(m)
    decreases |m|
  {
    if m == [] then html else ReplaceEach(ReplaceAll(html, m[0].0, m[0].1), m[1..])
  }

  /** HTML that mentions none of the hrefs is left as it is. */
  lemma {:induction false} ReplaceEachAbsent(html: string, m: Assoc)
    requires KeysNonEmpty(m) && forall i | 0 <= i < |m| :: !Contains(html, m[i].0)
    ensures ReplaceEach(html, m) == html
    decreases |m|
  {
    if m != [] {
      ReplaceAbsent(html, m[0].0, m[0].1);
      ReplaceEachAbsent(html, m[1..]);
    }
  }

  /** The loop over the dictionary's items. */
  method ReplaceLinks(html: string, m: Assoc) returns (out: string)
    requires KeysNonEmpty(m)
    ensures out == ReplaceEach(html, m)
  {
    out := html;
    assert m[0..] == m;
    for i := 0 to |m|
      invariant ReplaceEach(out, m[i..]) == ReplaceEach(html, m)
    {
      assert m[i..][1..] == m[i + 1..];
      out := ReplaceAll(out, m[i].0, m[i].1);
    }
  }

  const LearnOpen := "href=\"/learn/"
  const ReadingMark := "/reading/"
  const Quote := "\""
  const HashLink := "href=\"#\""

  /** The first `/reading/` at or after `k` with no line break before it:
      where the lazy `.*?` of the pattern stops. */
  function FirstReading(s: string, k: nat): (r: Option<nat>)
    requires k <= |s|
    ensures r.Some? ==> k <= r.value && OccursAt(s, ReadingMark, r.value)
                        && forall i | k <= i < r.value :: s[i] != '\n' && !OccursAt(s, ReadingMark, i)
    decreases |s| - k
  {
    if k + |ReadingMark| > |s| then None
    else if OccursAt(s, ReadingMark, k) then Some(k)
    else if s[k] == '\n' then None
    else FirstReading(s, k + 1)
  }

  /** The first `"` at or after `k` with no line break before it. */
  function FirstQuote(s: string, k: nat): (r: Option<nat>)
    requires k <= |s|
    ensures r.Some? ==> k <= r.value < |s| && s[r.value] == '"'
                        && forall i | k <= i < r.value :: s[i] != '"' && s[i] != '\n'
    decreases |s| - k
  {
    if k == |s| then None
    else if s[k] == '"' then Some(k)
    else if s[k] == '\n' then None
    else FirstQuote(s, k + 1)
  }

  /** The length of the match of `href="/learn/.*?/reading/.*?"` at the
      start of `s`, if there is one. */
  function LearnLinkLen(s: string): (r: Option<nat>)
    ensures r.Some? ==> StartsWith(s, LearnOpen) && |LearnOpen| + |ReadingMark| < r.value <= |s| && s[r.value - 1] == '"'
  {
    if !StartsWith(s, LearnOpen) then None
    else match FirstReading(s, |LearnOpen|)
         case None => None
         case Some(j) =>
           match FirstQuote(s, j + |ReadingMark|)
           case None => None
           case Some(q) => Some(q + 1)
  }

  /** `re.sub(r'href="/learn/.*?/reading/.*?"', 'href="#"', html)`: the
      scan replaces each match and resumes after it, and moves on one
      character where none starts. */
  function SubLearnLinks(s: string): string
    decreases |s|
  {
    if s == [] then []
    else match LearnLinkLen(s)
         case Some(n) => HashLink + SubLearnLinks(s[n..])
         case None => [s[0]] + SubLearnLinks(s[1..])
  }

  /** HTML without `href="/learn/` is left as it is. */
  lemma {:induction false} NoLearnLinkUnchanged(s: string)
    requires !Contains(s, LearnOpen)
    ensures SubLearnLinks(s) == s
    decreases |s|
  {
    if s != [] {
      AbsentParts(s, LearnOpen);
      CopiedHead(s);
      NoLearnLinkUnchanged(s[1..]);
      assert s == [s[0]] + s[1..];
    }
  }

  /** Where no link starts, the scan copies one character and moves on. */
  lemma CopiedHead(s: string)
    requires s != [] && !StartsWith(s, LearnOpen)
    ensures SubLearnLinks(s) == [s[0]] + SubLearnLinks(s[1..])
  {
    assert LearnLinkLen(s) == None;
  }

  lemma {:induction false} FirstReadingAt(s: string, k: nat, j: nat)
    requires k <= j && OccursAt(s, ReadingMark, j)
    requires forall i | k <= i < j :: s[i] != '\n' && !OccursAt(s, ReadingMark, i)
    ensures FirstReading(s, k) == Some(j)
    decreases j - k
  {
    if k < j {
      FirstReadingAt(s, k + 1, j);
    }
  }

  lemma {:induction false} FirstQuoteAt(s: string, k: nat, j: nat)
    requires k <= j < |s| && s[j] == '"'
    requires forall i | k <= i < j :: s[i] != '"' && s[i] != '\n'
    ensures FirstQuote(s, k) == Some(j)
    decreases j - k
  {
    if k < j {
      FirstQuoteAt(s, k + 1, j);
    }
  }

  /** An internal link `href="/learn/<x>/reading/<y>"`, with no slash in
      `x` and no quote in `y` and no line break in either, becomes
      `href="#"`, and the scan goes on after it. */
  lemma ReadingLinkRewritten(x: string, y: string, rest: string)
    requires '/' !in x && '\n' !in x && '"' !in y && '\n' !in y
    ensures SubLearnLinks(LearnOpen + x + ReadingMark + y + Quote + rest) == HashLink + SubLearnLinks(rest)
  {
    var s := LearnOpen + x + ReadingMark + y + Quote + rest;
    var q := |LearnOpen| + |x| + |ReadingMark| + |y|;
    LinkLenOf(x, y, rest);
    assert SubLearnLinks(s) == HashLink + SubLearnLinks(s[q + 1..]);
  }

  lemma LinkLenOf(x: string, y: string, rest: string)
    requires '/' !in x && '\n' !in x && '"' !in y && '\n' !in y
    ensures var s := LearnOpen + x + ReadingMark + y + Quote + rest;
            var q := |LearnOpen| + |x| + |ReadingMark| + |y|;
            q < |s| && LearnLinkLen(s) == Some(q + 1) && s[q + 1..] == rest
  {
    LinkPieces(x, y, rest);
    LinkReading(x, y, rest);
    LinkQuote(x, y, rest);
  }

  lemma LinkReading(x: string, y: string, rest: string)
    requires '/' !in x && '\n' !in x
    ensures var s := LearnOpen + x + ReadingMark + y + Quote + rest;
            FirstReading(s, |LearnOpen|) == Some(|LearnOpen| + |x|)
  {
    var s := LearnOpen + x + ReadingMark + y + Quote + rest;
    var j := |LearnOpen| + |x|;
    LinkPieces(x, y, rest);
    forall i | |LearnOpen| <= i < j
      ensures s[i] != '\n' && !OccursAt(s, ReadingMark, i)
    {
      assert s[i] == x[i - |LearnOpen|];
    }
    FirstReadingAt(s, |LearnOpen|, j);
  }

  lemma LinkQuote(x: string, y: string, rest: string)
    requires '"' !in y && '\n' !in y
    ensures var s := LearnOpen + x + ReadingMark + y + Quote + rest;
            var j := |LearnOpen| + |x| + |ReadingMark|;
            FirstQuote(s, j) == Some(j + |y|)
  {
    var s := LearnOpen + x + ReadingMark + y + Quote + rest;
    var j := |LearnOpen| + |x|;
    var q := j + |ReadingMark| + |y|;
    LinkPieces(x, y, rest);
    forall i | j + |ReadingMark| <= i < q
      ensures s[i] != '"' && s[i] != '\n'
    {
      assert s[i] == y[i - j - |ReadingMark|];
    }
    FirstQuoteAt(s, j + |ReadingMark|, q);
  }

  lemma LinkPieces(x: string, y: string, rest: string)
    ensures var s := LearnOpen + x + ReadingMark + y + Quote + rest;
            var j := |LearnOpen| + |x|;
            var q := j + |ReadingMark| + |y|;
            && StartsWith(s, LearnOpen) && OccursAt(s, ReadingMark, j)
            && q < |s| && s[q] == '"' && s[q + 1..] == rest
            && (forall i | |LearnOpen| <= i < j :: s[i] == x[i - |LearnOpen|])
            && (forall i | j + |ReadingMark| <= i < q :: s[i] == y[i - j - |ReadingMark|])
  {
    var s := LearnOpen + x + ReadingMark + y + Quote + rest;
    var j := |LearnOpen| + |x|;
    assert s[..|LearnOpen|] == LearnOpen;
    assert s[j..j + |ReadingMark|] == ReadingMark;
    assert s[j + |ReadingMark| + |y| + 1..] == rest;
  }

  /** `_localize_reading_assets`: the body's images are localised through
      the asset store, then its HTML has every dictionary href replaced by
      its local name and every internal reading link pointed at "#"; with
      no body the result is "" and nothing is stored. */
  method LocalizeReadingAssets(am: AssetManager, itemDir: Path, urlMap: Assoc, body: Option<Body>,
                               fs: FileSystem, fetch: string -> Option<nat>)
    returns (html: string, srcs: seq<string>, localized: seq<bool>, fs': FileSystem)
    requires am.Valid() && WellFormed(fs) && NoFileOnPath(fs, am.ImagesDir()) && KeysNonEmpty(urlMap)
    modifies am
    ensures am.Valid() && Extends(fs, fs') && WellFormed(fs') && NoFileOnPath(fs', am.ImagesDir())
    ensures ConfinedTo(fs, fs', am.ImagesDir())
    ensures body.None? ==> html == [] && fs' == fs && am.imageUrlToPath == old(am.imageUrlToPath)
    ensures body.Some? ==>
              |srcs| == |body.value.srcs| && |localized| == |srcs|
              && (forall i | 0 <= i < |srcs| :: am.Rewritten(body.value.srcs, srcs, localized, i, itemDir))
              && html == SubLearnLinks(ReplaceEach(body.value.render(srcs), urlMap))
  {
    if body.None? {
      return [], [], [], fs;
    }
    var count;
    srcs, localized, count, fs' := am.LocalizeImages(body.value.srcs, itemDir, fs, fetch);
    html := body.value.render(srcs);
    html := ReplaceLinks(html, urlMap);
    html := SubLearnLinks(html);
  }

  // ---------------------------------------------------------------------
  // process
  // ---------------------------------------------------------------------

  const HtmlExt := ".html"

  /** `f"{item_counter:03d}_{title}.html"`. */
  function HtmlName(counter: nat, title: string): Name
  {
    Pad3(counter) + "_" + title + HtmlExt
  }

  function HtmlPath(moduleDir: Path, counter: nat, title: string): Path
  {
    moduleDir + [HtmlName(counter, title)]
  }

  /** `process` of a reading item in `moduleDir`, whose shared asset store
      lies apart from it.  The attachments are downloaded first, whatever
      the page holds; without content the result is (False, new_dl, []).
      Otherwise the body is localised and the page is stored, which raises
      when the name of the page is taken by a directory. */
  method Process(am: AssetManager, fs: FileSystem, courseDir: Path, moduleDir: Path, counter: nat, title: string,
                 downloaded: set<string>, page: ReadingPage, fetch: string -> Option<nat>,
                 wrap: (string, string, string) -> string, broken: set<Path>)
    returns (ok: bool, newDl: nat, files: seq<(Path, string)>, downloaded': set<string>, fs': FileSystem,
             raised: bool, html: string, ghost urlMap: Assoc, ghost srcs: seq<string>, ghost css: string)
    requires Laid(am, fs, moduleDir) && |moduleDir| >= 1 && Apart(moduleDir, am.sharedAssetsDir)
    modifies am
    ensures Laid(am, fs', moduleDir)
    ensures MapEntries(page.links, |page.links|, counter, downloaded, urlMap)
            && MapCovers(page.links, |page.links|, downloaded, urlMap)
    ensures HasContent(page.find) ==>
              html == wrap(title, if page.body.Some? then SubLearnLinks(ReplaceEach(page.body.value.render(srcs), urlMap)) else [], css)
              && (page.body.Some? ==> |srcs| == |page.body.value.srcs|)
              && css == JoinWith(CssTags(page.stylesheets, moduleDir, am.sharedAssetsDir, am.md5), "\n")
    ensures downloaded <= downloaded' && newDl == |downloaded' - downloaded| && newDl <= |page.links|
    ensures forall h | h in downloaded' - downloaded ::
              HrefAmong(page.links, |page.links|, h) && h != [] && fetch(h).Some?
    ensures ok <==> HasContent(page.find) && !raised
    ensures !HasContent(page.find) ==> !raised
    ensures HasContent(page.find) ==> (raised <==> IsDir(fs', HtmlPath(moduleDir, counter, title)))
    ensures ok ==> files == [(HtmlPath(moduleDir, counter, title), ReadingKind)]
                   && HtmlPath(moduleDir, counter, title) in fs'
                   && fs'[HtmlPath(moduleDir, counter, title)] == File(|html|)
    ensures !ok ==> files == []
  {
    var urlMap';
    newDl, urlMap', downloaded', fs' := Attach(am, fs, courseDir, moduleDir, counter, page.links, downloaded, fetch, broken);
    urlMap := urlMap';
    ok, files, raised, html, srcs, css := false, [], false, [], [], [];
    if !HasContent(page.find) {
      return;
    }
    var processed, srcs', css';
    processed, srcs', fs' := LocalizeInModule(am, fs', moduleDir, urlMap', page.body, fetch);
    srcs := srcs';
    raised, html, css', fs' := StorePage(am, fs', courseDir, moduleDir, counter, title, processed, page.stylesheets, fetch, wrap, broken);
    css := css';
    if !raised {
      ok, files := true, [(HtmlPath(moduleDir, counter, title), ReadingKind)];
    }
  }

  /** The attachment phase of `process`, which keeps the layout. */
  method Attach(am: AssetManager, fs: FileSystem, courseDir: Path, moduleDir: Path, counter: nat,
                links: seq<(string, string)>, downloaded: set<string>,
                fetch: string -> Option<nat>, broken: set<Path>)
    returns (count: nat, urlMap: Assoc, downloaded': set<string>, fs': FileSystem)
    requires Laid(am, fs, moduleDir) && |moduleDir| >= 1 && Apart(moduleDir, am.sharedAssetsDir)
    ensures Laid(am, fs', moduleDir) && KeysNonEmpty(urlMap)
    ensures MapEntries(links, |links|, counter, downloaded, urlMap) && MapCovers(links, |links|, downloaded, urlMap)
    ensures downloaded <= downloaded' && count == |downloaded' - downloaded| && count <= |links|
    ensures forall h | h in downloaded' - downloaded :: HrefAmong(links, |links|, h) && h != [] && fetch(h).Some?
  {
    ghost var trace, seen;
    count, urlMap, downloaded', fs', trace, seen := DownloadAttachments(fs, courseDir, moduleDir, counter, links, downloaded, fetch, broken);
    ApartChild(moduleDir, am.sharedAssetsDir, "images");
    ApartChild(moduleDir, am.sharedAssetsDir, "css");
    assert forall j | 0 <= j < |urlMap| :: urlMap[j].0 != [];
  }

  /** `_localize_reading_assets` on the body of the page, which keeps the
      layout of the module. */
  method LocalizeInModule(am: AssetManager, fs: FileSystem, moduleDir: Path, urlMap: Assoc, body: Option<Body>,
                          fetch: string -> Option<nat>)
    returns (processed: string, srcs: seq<string>, fs': FileSystem)
    requires Laid(am, fs, moduleDir) && Apart(moduleDir, am.sharedAssetsDir) && KeysNonEmpty(urlMap)
    modifies am
    ensures Laid(am, fs', moduleDir)
    ensures body.None? ==> processed == []
    ensures body.Some? ==> |srcs| == |body.value.srcs|
                           && processed == SubLearnLinks(ReplaceEach(body.value.render(srcs), urlMap))
  {
    var localized;
    processed, srcs, localized, fs' := LocalizeReadingAssets(am, moduleDir, urlMap, body, fs, fetch);
    ApartChild(moduleDir, am.sharedAssetsDir, "images");
    Siblings(am.sharedAssetsDir, "images", "css");
    assert Outside(am.ImagesDir(), moduleDir) && Outside(am.ImagesDir(), am.CssDir());
  }

  /** The saving half of `process`: the page is placed in the module as
      `<counter>_<title>.html`, the course stylesheets are stored, and the
      wrapped page is written there; the write raises when that name is
      taken by a directory. */
  method StorePage(am: AssetManager, fs: FileSystem, courseDir: Path, moduleDir: Path, counter: nat, title: string,
                   processed: string, stylesheets: seq<(string, string)>, fetch: string -> Option<nat>,
                   wrap: (string, string, string) -> string, broken: set<Path>)
    returns (raised: bool, html: string, css: string, fs': FileSystem)
    requires Laid(am, fs, moduleDir) && |moduleDir| >= 1 && Apart(moduleDir, am.sharedAssetsDir)
    ensures Laid(am, fs', moduleDir)
    ensures raised <==> IsDir(fs', HtmlPath(moduleDir, counter, title))
    ensures !raised ==> HtmlPath(moduleDir, counter, title) in fs'
                        && fs'[HtmlPath(moduleDir, counter, title)] == File(|html|)
    ensures html == wrap(title, processed, css)
    ensures css == JoinWith(CssTags(stylesheets, moduleDir, am.sharedAssetsDir, am.md5), "\n")
  {
    var name := HtmlName(counter, title);
    var hFile;
    hFile, fs' := PlaceHtml(am, fs, courseDir, moduleDir, name, broken);
    css, fs' := am.DownloadCourseCss(stylesheets, moduleDir, fs', fetch);
    ApartChild(moduleDir, am.sharedAssetsDir, "css");
    Siblings(am.sharedAssetsDir, "css", "images");
    assert Outside(am.CssDir(), moduleDir) && Outside(am.CssDir(), am.ImagesDir());
    html := wrap(title, processed, css);
    raised := IsDir(fs', hFile);
    if !raised {
      fs' := WritePage(fs', moduleDir, name, |html|, am.ImagesDir(), am.CssDir());
    }
  }
}
