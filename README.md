# coursera-scraper, modelled in Dafny

This project models the core of coursera-scraper, an offline downloader for
Coursera courses, and proves properties of that model. The downloader walks a
course module by module and materialises every item (videos, readings,
quizzes and assignments, labs, PDFs) under `<download dir>/<course>/module_<n>/`,
with names that start with a three-digit, course-global item number. It is
meant to be re-run: an item that already exists is found again by its URL
slug, moved over from an older layout (the course root or another module
directory) or renumbered, and it is never downloaded twice. A set of offline
post-processors then works on the downloaded tree.

What is modelled, file by file (one Dafny module per source file):

- `Base`: the `str` operations the code relies on (lower, title, strip,
  split, replace, `f"{n:03d}"`), for ASCII, plus an `Option` type.
- `Fs`: the file system, a map from paths (sequences of names) to
  `File(size)` or `Dir`, with `mkdir -p`, `shutil.move` of a whole subtree,
  `rmtree`, write and unlink, and the frame predicates the rest of the model
  uses (`ConfinedTo`: no new file appears outside a given directory).
- `Listing`, `Walk`: directory listings and `os.walk`. Their order is left
  open wherever Python leaves it open.
- `Utils` (coursera/utils.py): `sanitize_filename` and `extract_slug`.
- `Files` (coursera/files.py): the placement layer: `get_or_move_path`,
  `get_unique_search_dirs`, `find_items`, `cleanup_stale_modules` and the skip
  rule of `download_file`.
- `Scraper` (coursera/scraper.py): item classification, the title fallback,
  the module loop, course-global counters, `_handle_existing_items` and the
  per-item count.
- `Common`, `Video`, `Reading`, `Quiz`, `Lab` (coursera/extractors/): the
  per-kind extractors, with the image cache of `AssetManager` as a class.
- `Dashboard`, `Navigator`, `Playlists`, `NotebookLinks`, `FixLinks`,
  `Captions`, `Summaries`, `Subtitles`, `Compress`: the post-processors
  generate_dashboard.py, create_course_navigator.py, create_playlists.py,
  fix_notebook_links.py, fix_links.py, translate_captions.py,
  summarize_readings.py, apply_subtitles.py and compress_all_videos_gpu.py.
- `Legacy` (coursera_scraper.py): the older single-file scraper.

Everything the program asks of the outside world is an input to the model.
That covers what the browser shows (element lists, URLs after a click, whether
content became visible), what a download returns (`fetch: string -> Option<nat>`,
the size written or a failure), yt-dlp, ffmpeg, the local LLM's answers and
translations, and md5 (an uninterpreted `string -> string`). A `shutil.move`
that raises `OSError` is modelled by a set `broken` of sources whose move
fails. Where Python iterates a directory in an unspecified order, the methods
pick with `:|` and their contracts hold for every order. Each regular
expression of the source is written out as its own function, not through a
regex engine.

Module directories are named `module_<n>`. `sanitize_filename` lowercases
its input and maps every character outside `[a-z0-9]` to `_`, so dashes and
spaces do not survive it.

## Model

| member | source | states |
|---|---|---|
| Captions.GetVttFiles | translate_captions.py:21-28 | the walk collects exactly the `_en.vtt` files, joined to their folder, sorted |
| Captions.VttFilesExactly | translate_captions.py:21-28 | every path found ends in `_en.vtt` and comes from the walk, every English caption file of the walk is found, and the list is sorted |
| Captions.StructureNotTranslatable | translate_captions.py:31-47 | cue timings, cue numbers and the `WEBVTT` header are never sent for translation, whatever whitespace surrounds them |
| Captions.SelectedSpec | translate_captions.py:98-107 | the indices kept are exactly those of the lines that pass, increasing, and each text is the stripped line at its index |
| Captions.ExtractTranslatableLines | translate_captions.py:96-107 | the loop returns the indices of the translatable lines and their stripped texts |
| Captions.LangEndTag | translate_captions.py:54 | an optional `json`, `html` or `text` tag after the opening fence is skipped |
| Captions.BlockAt | translate_captions.py:54 | a code block opens with a fence, its captured text lies inside and it ends with a closing fence |
| Captions.UnfencePlain | translate_captions.py:54 | text without a fence is left alone |
| Captions.CleanTranslation | translate_captions.py:50-62 | the cleaned answer has no surrounding whitespace |
| Captions.CleanPlain | translate_captions.py:50-62 | a plain answer is only stripped |
| Captions.FencedBlock | translate_captions.py:54 | the lazy group of a tagged code block captures the text between the tag's whitespace and the closing fence's |
| Captions.UnfenceFenced | translate_captions.py:54 | a text that is one tagged code block becomes the text inside |
| Captions.CleanFenced | translate_captions.py:52-62 | an answer wrapped in a tagged code block is unwrapped |
| Captions.UnbracketOf | translate_captions.py:56 | a one-element JSON list of a one-line text is unwrapped |
| Captions.CleanBracketed | translate_captions.py:52-62 | an answer given as `["…"]` is unwrapped |
| Captions.DropQuotesOf | translate_captions.py:58-61 | matching quotes are dropped with the whitespace inside them |
| Captions.CleanQuoted | translate_captions.py:52-62 | an answer in matching quotes loses them and the whitespace inside |
| Captions.OutputPathOf | translate_captions.py:114 | for the usual name the `_en.vtt` suffix becomes `_heb.vtt` |
| Captions.MergeAnswers | translate_captions.py:138-141 | each translated line becomes its answer and a newline; every other line is copied |
| Captions.AllTranslatedTexts | translate_captions.py:127-136 | every translatable line has an answer exactly when every text sent got one |
| Captions.MergedByIndex | translate_captions.py:138-141 | writing each answer over its line gives the merged file |
| Captions.TranslateLines | translate_captions.py:127-141 | the merge happens exactly when every text got an answer, and then gives the merged lines |
| Captions.ProcessVttFile | translate_captions.py:110-151 | an existing Hebrew file means success without writing; a read failure or a missing answer means failure without writing; otherwise the merged lines are written and success is whether the write succeeded |
| Captions.Pending | translate_captions.py:158-164 | only files whose Hebrew output is missing are worked on; without a limit all of them are, and a positive limit bounds their number |
| Common.ClimbRepeat | coursera/extractors/common.py:54-58 | resolving `"../" * n + x` from a directory drops its last `n` components and then follows `x` |
| Common.AssetRelResolves | coursera/extractors/common.py:54-84 | the relative link written into a page in `item_dir` leads to `shared_assets/<kind>/<name>` when the page lies below the directory holding `shared_assets` |
| Common.ImageExt | coursera/extractors/common.py:104-106 | the image extension is ".png" or a dot and one to four more characters |
| Common.ImageExtOfFile | coursera/extractors/common.py:103-108 | for `<dir>/<stem>.<e>?<query>` the extension is ".<e>" when at most five characters long, ".png" otherwise |
| Common.ImageExtWithoutDot | coursera/extractors/common.py:104 | a last path segment without a dot gives ".png" |
| Common.CssNameIgnoresQuery | coursera/extractors/common.py:45-47 | the stylesheet name hashes the URL without its query, so one stylesheet with different query strings is stored once |
| Common.CssTagsOnePerStylesheet | coursera/extractors/common.py:39-59 | exactly one tag per link whose rel is "stylesheet" and whose href is non-empty |
| Common.MakeAssetDirs | coursera/extractors/common.py:27-30 | the css and images directories exist afterwards and nothing already present is changed |
| Common.AssetManager.constructor | coursera/extractors/common.py:23-32 | the manager starts with an empty image cache |
| Common.AssetManager.DownloadCourseCss | coursera/extractors/common.py:34-65 | the tags are joined by newlines, one per stylesheet whether or not its download succeeds; every stylesheet is stored or its download failed; only the css directory gains files |
| Common.AssetManager.StoreStylesheet | coursera/extractors/common.py:45-51 | a stylesheet already on disk is not fetched again; otherwise it is fetched into the css directory |
| Common.AssetManager.DownloadAndCacheImage | coursera/extractors/common.py:97-118 | a cached URL answers with the cached path and changes nothing; otherwise the answer is the `img_<hash10><ext>` path exactly when that file exists or its download succeeds, and only then does the cache gain the URL; a failure leaves cache and disk as they were |
| Common.AssetManager.LocalizeOne | coursera/extractors/common.py:73-90 | one image: empty and `data:` sources are left alone; a localised image points at its shared copy and is in the cache; an eligible image stays only when it was not cached and its download failed |
| Common.AssetManager.LocalizeImages | coursera/extractors/common.py:67-95 | every image is either localised (pointed at its shared copy, cached) or left as it was; an eligible one is left only when uncached and its download failed; the count is the number localised; the cache only grows, with stored images of this page |
| Common.CloseAt | coursera/extractors/common.py:144 | the lazy group ends at the first position that closes the match |
| Common.MatchAtStart | coursera/extractors/common.py:144 | a match of `url\(['"]?(.*?)['"]?\)` has its group inside the match |
| Common.SubUrlsWithoutRefs | coursera/extractors/common.py:144 | a stylesheet without `url(` is returned unchanged and downloads nothing |
| Common.MatchOfPlainRef | coursera/extractors/common.py:144 | `url(<q><g><q>)` with an optional quote matches exactly, with group `g` |
| Common.DataRefKept | coursera/extractors/common.py:130-132 | a `data:` reference is kept exactly as written and downloads nothing |
| Common.OtherRefRewritten | coursera/extractors/common.py:130-142 | any other reference becomes `url('asset_<hash8><ext>')` and its joined URL is downloaded under that name |
| Common.LocalizeCssAssets | coursera/extractors/common.py:124-144 | the result is the rewritten stylesheet; every asset it names is stored or its download failed, and nothing existing is overwritten |
| Common.LinkName | coursera/extractors/common.py:165 | the stored name is non-empty and sanitised: the link text, or the href's stem when the text is blank |
| Common.PdfFileNameFromHref | coursera/extractors/common.py:165-166 | with blank link text an href `<dir>/<stem>.pdf` with a clean stem is stored as `<counter:03d>_<stem>.pdf` |
| Common.PdfTurn | coursera/extractors/common.py:160-173 | one link: counted only when it is a new PDF link whose fetch succeeds; a new link whose target is vacant and whose fetch succeeds is counted; a skipped link changes nothing |
| Common.PdfsReached | coursera/extractors/common.py:159-173 | every link that was new when its turn came, whose target was vacant then and whose fetch succeeds ends in the downloaded set |
| Common.ExtractPdfs | coursera/extractors/common.py:147-179 | the result is (count > 0, count); the count is the number of hrefs added to `downloaded_files`, each a `.pdf` link of the page whose download succeeded; every new link whose target was absent and whose fetch succeeds is added |
| Common.PlaceHtml | coursera/files.py:47-104 | placing a page in the module keeps the asset layout and the module directory apart from the shared asset directories |
| Compress.Disk.constructor | compress_all_videos_gpu.py:14 | the disk holds the given file sizes |
| Compress.TempPath | compress_all_videos_gpu.py:19-21 | the temporary output is the input's path with `temp_compressed_` inserted before its base name |
| Compress.CompressedSpec | compress_all_videos_gpu.py:14-91 | a temporary file is refused; the result is true exactly when the original got smaller, and it is never emptied; otherwise the original is as it was; the temporary file is always gone; no other file changes, and nothing is added or grows |
| Compress.CompressVideo | compress_all_videos_gpu.py:14-91 | the steps on the disk end as `Compressed` says |
| Compress.CompressAll | compress_all_videos_gpu.py:107-113 | at most every video is counted |
| Compress.BatchCompress | compress_all_videos_gpu.py:94-118 | the `.mp4` files of the walk (any case) are compressed one after another; the count and the disk are as `CompressAll` says, and the total is the number found |
| Compress.BatchShrinks | compress_all_videos_gpu.py:94-113 | a batch adds no file and grows none |
| Compress.BatchUntouched | compress_all_videos_gpu.py:94-113 | a batch leaves alone every file that is neither one of its videos nor a temporary file |
| Compress.ShrunkStep | compress_all_videos_gpu.py:112-113 | one call adds its video to the files that got smaller exactly when it succeeds |
| Compress.BatchCountsShrunk | compress_all_videos_gpu.py:104-117 | over distinct videos none of which is a temporary file, the success count is exactly the number of videos that got smaller |
| Dashboard.LastIn | generate_dashboard.py:315-330 | the file a group slot holds is the last file, in sorted order, tagged with that key and role, and the slot is empty exactly when no file is |
| Dashboard.Fill | generate_dashboard.py:323-330 | `grouped_items[key][role] = f` sets that slot and leaves the others |
| Dashboard.GroupFiles | generate_dashboard.py:313-334 | the grouping loop ends with one group per `^\d+_` key, each equal to the last file of every role for that key, and the keys in order of first appearance |
| Dashboard.FreshKeyEmpty | generate_dashboard.py:317-320 | a key that no file is tagged with has an empty group |
| Dashboard.ItemTitle | generate_dashboard.py:354-380 | the title has no underscore left |
| Dashboard.PageKind | generate_dashboard.py:370-376 | an html-only item is a quiz exactly when its lowercased name contains "quiz" or "assignment", else a lab exactly when it contains "lab", else html |
| Dashboard.ItemOf | generate_dashboard.py:339-384 | a video takes precedence over html and carries exactly the subtitles of its group; an html item has the page kind and no subtitles; the title is derived from the main file; a group without video or html, or with an empty quoted path, gives no item |
| Dashboard.SortedKeys | generate_dashboard.py:337-338 | items are emitted in lexicographic order of their prefix key, each key once |
| Dashboard.ScanModule | generate_dashboard.py:311-385 | one module folder gives the items of its groups in sorted key order |
| Dashboard.ModulesOf | generate_dashboard.py:386-387 | a module without items is dropped |
| Dashboard.CoursesOf | generate_dashboard.py:294-390 | every course kept is other than `shared_assets` and has a module, each of which has an item |
| Dashboard.CourseDirs | generate_dashboard.py:292 | the course folders are the visible directories of the download folder, sorted |
| Dashboard.CoursesVisible | generate_dashboard.py:292 | no course path starts with a dot |
| Dashboard.ScanCourse | generate_dashboard.py:303-388 | the module loop of one course folder gives its non-empty modules in name order |
| Dashboard.ScanDirectory | generate_dashboard.py:288-392 | every course is a visible folder other than `shared_assets` with at least one module, and every module has an item |
| Files.GetUniqueSearchDirs | coursera/files.py:30-44 | the search directories are exactly the existing ones among the course root, the module and the `module_*` directories, each once; the course root comes first and the module second whenever they exist |
| Files.GlobModules | coursera/files.py:34 | the glob yields exactly the `module_*` sub-directories of the course, in some order |
| Files.FindExactSource | coursera/files.py:65-79 | the exact-name search returns a movable `<dir>/<name>` from a search directory other than the module, prefers the first directory, and reports none only when no such directory holds a movable entry |
| Files.FindRenumberSource | coursera/files.py:80-102 | the renumbering search looks only in the course root and the current module, returns a movable `NNN_<suffix>` entry other than the target, and reports none only when every such directory is exhausted |
| Files.GetOrMovePath | coursera/files.py:47-104 | the result is always `module_dir/target_name` and the module directory exists; an existing target moves nothing; otherwise at most one entry is moved, from an exact-name source or, when none can move, from a renumbering source; a failed move leaves the tree as it was and the search goes on; an entry with the exact name in an existing course root that can move is moved |
| Files.PlaceAt | coursera/files.py:75-97 | a movable source moved onto the target keeps the tree well formed and the module directory in place |
| Files.VacantNotMoved | coursera/files.py:66-104 | when no exact-name and no renumbering source can be moved, no move happens |
| Files.DedupeFirstSeen | coursera/files.py:126-133 | the de-duplication loop keeps the first occurrence of each path, in order |
| Files.GlobAll | coursera/files.py:121-124 | the slug globs collect exactly the entries of the search directories whose name is three digits, an underscore and then the slug; when the directories are distinct, the matches of each directory come after those of every directory searched before it |
| Files.Rank | coursera/files.py:121 | the rank of an entry is the first position of its directory among the search directories, or past the end when it is in none |
| Files.RankOfDistinct | coursera/files.py:115-121 | in a list of distinct directories, an entry of the k-th directory has rank k |
| Files.DedupInOrder | coursera/files.py:127-133 | first-seen deduplication keeps the directory-by-directory order |
| Files.FindItems | coursera/files.py:107-135 | no URL or an empty slug finds nothing; otherwise the result holds exactly the `NNN_<slug>*` entries of the search directories, each once; it is the first-seen dedupe of the globs, and both the globs and the result come directory by directory in the order of the distinct search directories |
| Files.ModuleNumber | coursera/files.py:17-22 | a module number is only read from a name starting with `module_` |
| Files.CleanupStaleModules | coursera/files.py:11-27 | exactly the `module_<digits>` directories whose number is not valid are removed, except those whose deletion raises; an absent course directory changes nothing |
| Files.CleanupLeavesValidModules | coursera/files.py:16-25 | after cleanup every numbered module directory still in the course has a valid number or failed to be deleted |
| Files.DownloadFile | coursera/files.py:138-162 | an existing non-empty file succeeds without fetching and changes nothing; otherwise success needs a server answer and a writable path, and then the parent directories and the file are created; a failure changes nothing |
| Files.FetchNew | coursera/files.py:145-159 | a download to an absent path succeeds exactly when the server answers and the path can be written, and only adds entries |
| FixLinks.Attachments | fix_links.py:25 | the local files are exactly the files of the page's folder whose name contains `_attachment_` |
| FixLinks.FirstWhere | fix_links.py:61-82 | the `for ... break` search finds nothing exactly when no file qualifies, and otherwise a file that qualifies |
| FixLinks.FirstWhereAt | fix_links.py:61-82 | the position found qualifies and no earlier file does |
| FixLinks.FindFirst | fix_links.py:61-82 | the search loop stops at the first qualifying file |
| FixLinks.Safe | fix_links.py:69 | `urlsplit` deletes tabs, carriage returns and newlines and keeps every other character |
| FixLinks.UrlPath | fix_links.py:69-70 | the path of a web link holds no `?`, `#` or deleted character and starts with `/` when non-empty; absent where `urlparse` raises |
| FixLinks.UrlFileName | fix_links.py:71 | the base name has no `/` and no `;params` |
| FixLinks.Unquote | fix_links.py:73 | decoding never lengthens a name and keeps one without `%` |
| FixLinks.UnquoteQuote | fix_links.py:73 | unquoting gives back every `%XX`-quoted ASCII name |
| FixLinks.DataName | fix_links.py:50-56 | the link's own non-empty `data-name` wins, else that of its first descendant that has one |
| FixLinks.TargetIsWebLinkAttachment | fix_links.py:42-86 | only `http://` or `https://` links are redirected, and always to one of the local attachments |
| FixLinks.DataNameFirst | fix_links.py:58-67 | when the data name names an attachment, the first such attachment is the target whatever the URL says |
| FixLinks.Redirected | fix_links.py:86-90 | `href` becomes the attachment's name, `target` becomes `_self`, `rel` is removed and every other attribute is kept |
| FixLinks.FixedAnchors | fix_links.py:38-94 | one link out per link in, each fixed by its own target; the count is the number of links redirected, zero exactly when none is |
| FixLinks.LocalLinksKept | fix_links.py:41-43 | links that are not absolute web links come out untouched |
| FixLinks.NoAttachmentsNoFixes | fix_links.py:27-28 | a page without attachments has nothing redirected |
| FixLinks.Soup.constructor | fix_links.py:34 | a parsed page holds the given links |
| FixLinks.Soup.FixLinks | fix_links.py:38-94 | the link loop leaves the page's links as `FixedAnchors` says and returns how many were redirected |
| FixLinks.AnchorsOf | fix_links.py:30-34 | each readable page contributes its own links |
| FixLinks.PagesFixed | fix_links.py:21-99 | one outcome per page |
| FixLinks.WrittenPagesIff | fix_links.py:96-99 | a page is written back exactly when at least one of its links was fixed, and pages are written in order |
| FixLinks.NothingWrittenNothingFixed | fix_links.py:94-99 | when no page is written, no link was counted |
| FixLinks.FixPage | fix_links.py:24-99 | one page: its links fixed when it has attachments, skipped otherwise |
| FixLinks.PageTurn | fix_links.py:21-99 | one page's links are fixed and no other page's links change |
| FixLinks.FixAttachmentLinks | fix_links.py:8-104 | every readable page ends as its link loop leaves it, the files written back are exactly the pages with a link fixed, and the total counts every link fixed |
| Lab.ItemId | coursera/extractors/lab.py:66 | the item id is at most ten characters with no slash and no query |
| Lab.ItemIdOfSegment | coursera/extractors/lab.py:66 | for `.../<segment>?<query>` the id is the first ten characters of the segment |
| Lab.LabFolderNumbered | coursera/extractors/lab.py:66-68 | below a thousand items the folder is `<counter:03d>_<sanitised title>_<item id>`, the numbered form the renumbering pass recognises |
| Lab.PrepareTargetDir | coursera/extractors/lab.py:64-71 | the lab folder is that name in the module and is created with its parents; the call raises exactly when a file lies on that path, and then changes nothing |
| Lab.MkDirsAddsNoNotebook | coursera/extractors/lab.py:39-42 | creating the folder never makes a notebook appear inside it |
| Lab.LaunchLab | coursera/extractors/lab.py:78-96 | the first launch selector, in list order, whose element is displayed is clicked; True exactly when one is |
| Lab.Process | coursera/extractors/lab.py:35-62 | the folder is always prepared; the lab is launched exactly when no notebook is already under the folder and a launch button is displayed; the result is (count > 0, count) with count always 0 |
| Lab.MigrateToShared | coursera/extractors/lab.py:127-151 | a file is copied to `<md5_12>_<name>` in the shared lab folder unless that exists, both its relative path and its bare name are mapped to the shared name, the original is deleted and nothing else changes; a missing file gives None and changes nothing |
| Lab.RecordedGet | coursera/extractors/lab.py:141-147 | both recorded keys give the shared name and every other key keeps its value |
| Lab.Template | coursera/extractors/lab.py:199 | `re.sub` reads a replacement as a template, which is never longer than the text |
| Lab.TemplatePlain | coursera/extractors/lab.py:199 | a template without backslashes is the text itself |
| Lab.SubAbsent | coursera/extractors/lab.py:196-199 | a line without the escaped pattern is left unchanged |
| Lab.TemplateOfBackslashed | coursera/extractors/lab.py:177-199 | read back as a template, a doubled-backslash path is the path with single backslashes for its slashes |
| Lab.FinalsAt | coursera/extractors/lab.py:171-178 | as written, a bare name maps to the doubled-backslash form of its new path and a name with a slash to its new path; corrected, every backslash-free key maps to its new path |
| Lab.BareNameGetsBackslashes | coursera/extractors/lab.py:171-178 | as written, a bare file name maps to a path that `re.sub` writes with backslashes, not the new relative path |
| Lab.FinalKeepsNewPath | coursera/extractors/lab.py:171-178 | with the correction every backslash-free key maps to `dots + "shared_assets/labs/" + shared`, which `re.sub` writes unchanged |
| Lab.PrepareFinalReplacements | coursera/extractors/lab.py:171-178 | the loop builds the corrected final map |
| Lab.RewriteAbsent | coursera/extractors/lab.py:186-189 | a line mentioning none of the keys is left unchanged |
| Lab.RewriteLine | coursera/extractors/lab.py:188-189 | the loop applies each replacement in map order |
| Lab.RewriteCell | coursera/extractors/lab.py:183-193 | only list-valued sources are rewritten, line by line, keeping the line count |
| Lab.RewriteSource | coursera/extractors/lab.py:185-193 | the cell's lines are rewritten and `changed` holds exactly when some line differs |
| Lab.Notebook.ApplyReplacements | coursera/extractors/lab.py:180-194 | every list source is rewritten in place and the result holds exactly when some line changed |
| Lab.UpdateIpynbReferences | coursera/extractors/lab.py:153-169 | nothing happens for a missing notebook or an empty map; a notebook outside the download folder raises; otherwise the notebook is rewritten exactly when it parses and some line changes |
| Legacy.SanitizeFilename | coursera_scraper.py:174-176 | the name keeps its length, every character of `<>:"/\|?*` becomes `_` in place and every other character is kept |
| Legacy.SanitizeFixed | coursera_scraper.py:174-176 | a name without those characters is its own sanitised form |
| Legacy.SanitizeIdempotent | coursera_scraper.py:174-176 | sanitising twice is sanitising once |
| Legacy.CleanUrl | coursera_scraper.py:139-156 | `href.split('?')[0].split('#')[0]` is a prefix of the link with no query and no fragment, and a link without either is kept |
| Legacy.CourseLinks | coursera_scraper.py:135-142 | every cleaned course link is free of query and fragment |
| Legacy.CardLinks | coursera_scraper.py:151-158 | every cleaned card link is free of query and fragment |
| Legacy.CourseLinksFrom | coursera_scraper.py:135-142 | the cleaned course links are exactly those of the anchors whose `href` contains `/learn/` |
| Legacy.CertificateCoursesSpec | coursera_scraper.py:132-160 | the courses are distinct and free of query and fragment; when a course link passes the filter they are exactly the cleaned `/learn/` links that are not lectures or supplements |
| Legacy.CourseLinksStep | coursera_scraper.py:135-142 | one anchor of the first loop appends its cleaned URL when it is a course link not collected yet |
| Legacy.CardLinksStep | coursera_scraper.py:151-158 | one card of the fallback loop appends its cleaned URL when it has an `href` not collected yet |
| Legacy.GetCertificateCourses | coursera_scraper.py:117-172 | the loops compute the certificate's courses: the collected course links, deduplicated and filtered, or else the course cards' links |
| Legacy.ItemTypeFollowsMarkers | coursera_scraper.py:349-358 | the chain of substring tests is the ordered marker table: the earliest marker present decides the kind |
| Legacy.OtherIffNoMarker | coursera_scraper.py:349-358 | an item is "other" exactly when its URL has none of the markers |
| Legacy.ItemTitle | coursera_scraper.py:361-370 | the title holds no character the sanitiser replaces |
| Legacy.ItemTitleFirstUsable | coursera_scraper.py:363-368 | the first selector whose element has a non-blank text gives the title, stripped and sanitised |
| Legacy.ItemTitleUntitled | coursera_scraper.py:361-370 | with no usable text the title is `Untitled` |
| Legacy.Hrefs | coursera_scraper.py:302-305 | the collected `href`s are exactly the present non-empty ones |
| Legacy.ItemLinksSpec | coursera_scraper.py:292-305 | the item links are distinct and are exactly the non-empty `href`s |
| Legacy.HrefsStep | coursera_scraper.py:302-305 | one anchor appends its `href` when it is non-empty and not yet collected |
| Legacy.ModulesFromStop | coursera_scraper.py:255-321 | a module that redirects or lists no item leaves the progress as it is |
| Legacy.ModulesFromNext | coursera_scraper.py:255-333 | a module that does not end the course runs its items and moves on to the next |
| Legacy.CourseContentOf | coursera_scraper.py:608-615 | the result is the materials count, or the `RuntimeError` when no item was numbered |
| Legacy.CollectItemLinks | coursera_scraper.py:293-305 | the collecting loop returns the item links |
| Legacy.VisitItems | coursera_scraper.py:325-333 | the item loop skips visited URLs and numbers each new one, as `ItemsRun` says |
| Legacy.ModuleTurn | coursera_scraper.py:255-333 | a pass ends the course exactly when the module page redirects or lists no item, and then changes nothing; otherwise it advances the progress as the module loop does |
| Legacy.GetCourseContent | coursera_scraper.py:233-615 | the module loop over modules 1 to 20 computes `CourseContent` |
| Legacy.ItemsRunVisited | coursera_scraper.py:325-332 | the URLs visited after a module are those seen before and the module's links |
| Legacy.ItemsRunCounts | coursera_scraper.py:325-332 | the counter grows by the number of URLs that were new |
| Legacy.ModulesFromCounts | coursera_scraper.py:255-333 | over the module loop the counter only grows, by one per new URL |
| Legacy.CounterIsVisited | coursera_scraper.py:246-332 | over a course the counter is the number of distinct item URLs visited |
| Legacy.NoItemsIff | coursera_scraper.py:612-613 | the `RuntimeError` is raised exactly when module 1 redirected or listed no item |
| Legacy.ModulesFromAgree | coursera_scraper.py:255-271 | the module loop looks only at the pages up to the first that ends it, and never past module 20 |
| Legacy.AtMostTwentyModules | coursera_scraper.py:255 | pages past module 20 never matter |
| Legacy.StopsAtFirstMissingModule | coursera_scraper.py:267-321 | pages after the first module that redirects or lists no item never matter |
| Legacy.Disk.constructor | coursera_scraper.py:178 | the disk holds the given file sizes |
| Legacy.DownloadSpec | coursera_scraper.py:178-198 | the call succeeds exactly when a non-empty file was there or the request went through; on success the file is there; a non-empty file is never written over; nothing but the target changes |
| Legacy.DownloadFile | coursera_scraper.py:178-198 | the steps on the disk end as `Download` says |
| Legacy.ChosenSourcesSpec | coursera_scraper.py:622-636 | every source tried is a non-empty source of the element; when one names `720` exactly those are tried, otherwise every non-empty source is |
| Legacy.VideoPath | coursera_scraper.py:641 | the file of a video is an `.mp4` under the item's prefix |
| Legacy.VideosRunSnoc | coursera_scraper.py:622-660 | one more video element runs its sources on what the earlier ones left |
| Legacy.DownloadSources | coursera_scraper.py:638-660 | the source loop changes the disk, the count and the flag as `SourcesRun` says |
| Legacy.DownloadVid | coursera_scraper.py:617-662 | `download_vid` changes the disk, the count and the flag as `VideosRun` says |
| Legacy.SourcesRunGrows | coursera_scraper.py:638-660 | no file is overwritten and every material counted is a new `.mp4` of the item |
| Legacy.VideosRunGrows | coursera_scraper.py:617-662 | over the whole of `download_vid` no file is overwritten and every material counted is a new video file of the item |
| Legacy.ExistingVideoKept | coursera_scraper.py:641-647 | a video whose file is already there is not downloaded again, and still sets `downloaded_something` when it has a source |
| Legacy.MainLinks | coursera_scraper.py:415-425 | the links kept are exactly those outside any footer |
| Legacy.PdfName | coursera_scraper.py:433-437 | a PDF's file name always ends in `.pdf` |
| Legacy.FilterMainLinks | coursera_scraper.py:415-425 | the footer filter loop keeps exactly the links outside a footer, in order |
| Legacy.LinkTurn | coursera_scraper.py:430-444 | one link: a new non-empty `href` that passes the test is recorded and downloaded |
| Legacy.DownloadLinks | coursera_scraper.py:415-444 | the footer filter, then the pass over the links left |
| Legacy.DownloadPdfs | coursera_scraper.py:408-446 | every PDF link outside a footer not downloaded before in the course is fetched to `<nnn>_<name>.pdf` |
| Legacy.DownloadResources | coursera_scraper.py:558-590 | every download link outside a footer not downloaded before whose `href` names no PDF or video is fetched |
| Legacy.LinksRunDownloaded | coursera_scraper.py:430-444 | the `href`s a pass records are exactly the earlier ones plus the new non-empty ones that pass its test |
| Legacy.FooterNeverFetched | coursera_scraper.py:415-433 | links inside a footer are never recorded or downloaded |
| Legacy.LinksRunGrows | coursera_scraper.py:430-444 | over a pass no file is overwritten and every file added carries the item's prefix and the pass's suffix |
| Legacy.PdfPassGrows | coursera_scraper.py:430-444 | every file a PDF pass adds is a `.pdf` of the item |
| Listing.Dedup | coursera_scraper.py:144 | `dict.fromkeys` keeps exactly the elements of the list, each once |
| Listing.DedupOrder | coursera_scraper.py:144 | the de-duplicated list is no longer than the input and keeps the order of first occurrences |
| Listing.DedupOfDistinct | coursera_scraper.py:144 | a list without repeats is its own de-duplication |
| Listing.SortStrings | translate_captions.py:28 | `sorted` of strings is an ordered permutation of its input |
| Listing.SortNodes | generate_dashboard.py:303 | sorting directory entries by name gives an ordered permutation |
| Listing.NumberPrefix | generate_dashboard.py:317 | `re.match(r"(\d+)_", name)` gives a run of digits that starts the name and is followed by `_` |
| Listing.NumberPrefixMatches | create_course_navigator.py:453 | the match succeeds whenever a non-empty run of digits followed by `_` starts the name, and its group is that run |
| Listing.DropNumber | generate_dashboard.py:355 | `re.sub(r"^\d+_", "", s)` leaves a name without number prefix alone and otherwise removes exactly the number and its underscore |
| Navigator.Glob | create_course_navigator.py:463-464 | the glob keeps exactly the listed entries named `{prefix}_*{ext}` |
| Navigator.Pages | create_course_navigator.py:464-466 | the page candidates are glob matches that are not `_view.html` wrappers |
| Navigator.NavTitle | create_course_navigator.py:454 | the title has no underscore left |
| Navigator.NavTitleAgrees | create_course_navigator.py:454 | when the prefix does not recur in the name, the navigator's title and the dashboard's title of one file coincide |
| Navigator.ItemFor | create_course_navigator.py:476-517 | a lab folder (with a notebook or `_lab` in its name) comes first, navigating to `<folder>.html`; otherwise the first video of the prefix, navigating to its `.html` twin; otherwise the first non-wrapper page, which is its own target; no item exactly when none of the three exists |
| Navigator.EntryItem | create_course_navigator.py:446-458 | an entry makes an item exactly when it is not a `_view.html` wrapper, its name starts with digits and `_`, and its prefix finds a lab, video or page |
| Navigator.Firsts | create_course_navigator.py:444-521 | the kept items have pairwise distinct prefixes, and a prefix is kept exactly when some entry made an item with it |
| Navigator.FirstsAreFirst | create_course_navigator.py:457-521 | every kept item is the item of the first entry that made one with its prefix |
| Navigator.Made | create_course_navigator.py:443-446 | one candidate per entry of the name-sorted listing, in order |
| Navigator.ScanNavModule | create_course_navigator.py:443-521 | the entry loop with `processed_prefixes` yields exactly the first item made for each prefix, in entry order |
| Navigator.NavModulesOf | create_course_navigator.py:523-524 | a module without items is not kept |
| Navigator.CourseNav | create_course_navigator.py:428-529 | a skipped course (dot or `shared_assets`) or one with no module gives no index; otherwise every module kept has an item |
| Navigator.GenerateCourseNavigation | create_course_navigator.py:424-529 | the module loop builds exactly the course index `CourseNav` describes |
| Navigator.NavCourses | create_course_navigator.py:542-547 | no indexed course is skipped or empty |
| Navigator.ScanAndGenerate | create_course_navigator.py:542-547 | the courses are indexed from the sorted sub-folders of the root, in order |
| Navigator.CommonLength | create_course_navigator.py:153 | the shared leading part of two paths, maximal |
| Navigator.RelPath | create_course_navigator.py:153 | `os.path.relpath` never gives an empty path |
| Navigator.RelPathResolves | create_course_navigator.py:149-153 | the relative link, followed from the current page's folder, leads to the item's target |
| Navigator.LinkOf | create_course_navigator.py:148-163 | a link is active exactly when its item is the current page, shows the video icon exactly for videos, and carries the item's title |
| Navigator.SidebarOf | create_course_navigator.py:127-165 | one sidebar group per module, open when the module holds the current page, with one link per item |
| Navigator.OpenIffActiveLink | create_course_navigator.py:129-159 | a module group is open exactly when one of its links is active |
| Navigator.FindPage | create_course_navigator.py:129-135 | the scan with `break` finds whether the module holds the current page |
| Navigator.BuildLinks | create_course_navigator.py:148-163 | the link loop builds one link per item, in order |
| Navigator.GenerateSidebar | create_course_navigator.py:120-168 | the sidebar built by the two loops is `SidebarOf` the course's modules |
| Navigator.Tracks | create_course_navigator.py:264-276 | a Hebrew track exactly when `_heb.vtt` exists, always default; an English track exactly when `_en.vtt` exists, default only without Hebrew; never two defaults |
| Navigator.PageMarksItself | create_course_navigator.py:120-165 | on an item's own page its module is open and its own link is active |
| NotebookLinks.SanitizeFilename | fix_notebook_links.py:8-9 | an empty name becomes `untitled` |
| NotebookLinks.CollapseDots | fix_notebook_links.py:13 | after `re.sub(r"\.{2,}", "_")` no two dots are adjacent and every character is `_` or one of the input's |
| NotebookLinks.SanitizedIsClean | fix_notebook_links.py:6-22 | the result is non-empty, lower-case, free of the replaced punctuation, spaces and hyphens, with no `..`, no `__` and no leading or trailing `_` |
| NotebookLinks.CleanFixed | fix_notebook_links.py:6-22 | a clean name is its own sanitised form |
| NotebookLinks.SanitizeIdempotent | fix_notebook_links.py:6-22 | sanitising twice is sanitising once |
| NotebookLinks.KeepsParenthesisAndDot | fix_notebook_links.py:7-13 | despite its docstring, this sanitiser keeps `(` and single dots, which the scraper's removes |
| NotebookLinks.HashedStem | fix_notebook_links.py:34-41 | a match splits the name into a non-empty stem, `_`, an eight-character hash, a dot and a dot-free extension |
| NotebookLinks.HashedStemOf | fix_notebook_links.py:34-41 | the migrated name `<stem>_<8 hex>.<ext>` matches and yields its stem |
| NotebookLinks.IndexHas | fix_notebook_links.py:37-46 | a key is in the index exactly when some file of the labs folder has it |
| NotebookLinks.IndexHoldsLast | fix_notebook_links.py:37-46 | a present key names the last file that has it |
| NotebookLinks.BuildIndex | fix_notebook_links.py:32-46 | the indexing loop builds the index of every file, keyed by its hashed stem or its sanitised stem, lowercased |
| NotebookLinks.LastSegment | fix_notebook_links.py:128 | the last `/`-segment is a slash-free suffix of the path |
| NotebookLinks.DropExtension | fix_notebook_links.py:129 | a name without a dot is kept; otherwise what precedes its last dot |
| NotebookLinks.LookupKey | fix_notebook_links.py:119-134 | the key is at most 60 characters and a prefix of the sanitised stem of the cleaned path's last segment |
| NotebookLinks.Relink | fix_notebook_links.py:119-153 | a path already under `shared_assets/labs` or whose key is not indexed is kept; otherwise it becomes `<dots>shared_assets/labs/<indexed name>`, backslashed when the original had a backslash |
| NotebookLinks.TargetPointsAtLabs | fix_notebook_links.py:122-143 | a rewritten path contains `shared_assets/labs` once cleaned |
| NotebookLinks.RelinkSettles | fix_notebook_links.py:119-153 | a relinked path is left alone by any later pass, so running the fixer twice changes nothing more |
| NotebookLinks.HtmlAt | fix_notebook_links.py:95 | a match of `(src\s*=\s*)(["'])(.*?)(["'])` at a position spells out the text there |
| NotebookLinks.MarkdownAt | fix_notebook_links.py:97 | a match of `(!\[.*?\]\()(.*?)(\))` at a position spells out the text there |
| NotebookLinks.Replace | fix_notebook_links.py:105-153 | a match that is not relinked is returned unchanged |
| NotebookLinks.Scan | fix_notebook_links.py:156-157 | the non-overlapping left-to-right matches and the copied gaps spell out the line |
| NotebookLinks.Apply | fix_notebook_links.py:156-157 | a substitution that replaced nothing returns the pieces unchanged |
| NotebookLinks.Sub | fix_notebook_links.py:156-157 | `pattern.sub` that replaced nothing returns its input |
| NotebookLinks.ApplyNoRelink | fix_notebook_links.py:136-153 | when no path can be relinked, nothing is replaced |
| NotebookLinks.FixLine | fix_notebook_links.py:155-157 | a line where nothing was replaced is kept |
| NotebookLinks.FixLineEmptyIndex | fix_notebook_links.py:136-157 | with an empty index every line is kept and nothing is marked updated |
| NotebookLinks.RewriteAll | fix_notebook_links.py:99-161 | one rewritten element per element, in order; updated exactly when one element was |
| NotebookLinks.RewriteAllUnchanged | fix_notebook_links.py:99-161 | when nothing was updated the elements are kept |
| NotebookLinks.FixedCellsUnchanged | fix_notebook_links.py:99-167 | a notebook in which nothing was replaced keeps its cells |
| NotebookLinks.FixedCellsEmptyIndex | fix_notebook_links.py:99-167 | with an empty index no notebook is updated |
| NotebookLinks.FixSource | fix_notebook_links.py:101-159 | the line loop rewrites every line and reports whether any was updated |
| NotebookLinks.FixCell | fix_notebook_links.py:100-161 | a cell with a `source` list gets its lines rewritten; any other cell is kept |
| NotebookLinks.FixCells | fix_notebook_links.py:99-161 | the cell loop writes each rewritten cell back into its slot |
| NotebookLinks.FixSingleNotebook | fix_notebook_links.py:80-172 | a notebook outside the download folder or unreadable is not fixed and not touched; otherwise its cells are rewritten with `../` once per folder level, and it is fixed exactly when something was replaced |
| NotebookLinks.SearchRoot | fix_notebook_links.py:55 | the search root is the parent of a folder named `coursera_downloads`, the folder itself otherwise |
| NotebookLinks.StepNotebooks | fix_notebook_links.py:63-70 | the notebooks of a walk step are its `.ipynb` files that lie under the download folder |
| NotebookLinks.Notebooks | fix_notebook_links.py:58-70 | every notebook worked on is an `.ipynb` file under the download folder, outside `shared_assets` |
| NotebookLinks.Continue | fix_notebook_links.py:72-74 | every notebook is counted, and at most every one is fixed |
| NotebookLinks.ContinueWritten | fix_notebook_links.py:163-167 | each file written holds the rewritten cells of its own notebook |
| NotebookLinks.ContinueNothingFixed | fix_notebook_links.py:72-74 | notebooks that are all left alone are only counted |
| NotebookLinks.NoAssetsNothingWritten | fix_notebook_links.py:32-74 | with an empty labs folder every notebook is counted and none is written |
| NotebookLinks.FixOne | fix_notebook_links.py:84-89 | a notebook's outcome is its rewritten cells when it could be read and something was replaced |
| NotebookLinks.TallyOne | fix_notebook_links.py:72-74 | one notebook is counted and, when fixed, written |
| NotebookLinks.FixStep | fix_notebook_links.py:63-74 | the file loop of one walk step tallies exactly that step's notebooks |
| NotebookLinks.FixNotebooks | fix_notebook_links.py:24-78 | nothing happens when `shared_assets/labs` is missing; otherwise every notebook of the walk is analysed, in walk order, against the index of the labs folder |
| Playlists.ReplaceCharIsSubChar | create_playlists.py:39 | replacing a one-character pattern replaces each occurrence of that character |
| Playlists.XmlEscaped | create_playlists.py:42-47 | the escaped path holds no `<`, `>` or `"` |
| Playlists.EscapeChainIsPerChar | create_playlists.py:42-47 | because `&` is replaced first, the chain of four replacements escapes each character exactly once |
| Playlists.UnescapeEscaped | create_playlists.py:42-48 | an XML reader of the attribute gets the path back |
| Playlists.SrcDecodes | create_playlists.py:27-48 | the `src` attribute is quote- and bracket-free and decodes to the located path (relative when under the base folder, resolved otherwise) with every `/` as `\` |
| Playlists.WplLines | create_playlists.py:15-52 | a playlist is the fixed header with the title, one media line per video in order, and the fixed footer |
| Playlists.WriteWpl | create_playlists.py:7-52 | the write loop produces exactly those lines |
| Playlists.ModuleNumber | create_playlists.py:57 | `re.search(r"module_(\d+)")`: absent exactly when no position starts `module_` and a digit; otherwise the number at the leftmost such position |
| Playlists.ModuleNumberOf | create_playlists.py:55-59 | a name holding `module_<n>` with no earlier match has sort key n |
| Playlists.InsertNum | create_playlists.py:72-74 | insertion keeps the sequence sorted by its numeric key and adds exactly the element |
| Playlists.SortNum | create_playlists.py:72-74 | `sorted` with a numeric key returns a sorted permutation |
| Playlists.SortModules | create_playlists.py:55-74 | sorting raises exactly when some module has a numeric key and another a name key; otherwise it is a permutation sorted by number, or by lowercased name |
| Playlists.ModulePlaylists | create_playlists.py:76-94 | a module playlist is written only for a module with videos |
| Playlists.CourseIsModulesConcatenated | create_playlists.py:94-108 | the course playlist lists exactly the videos of the module playlists, in module order |
| Playlists.WriteModulePlaylists | create_playlists.py:76-94 | the module loop writes exactly the module playlists and gathers all their videos |
| Playlists.CoursePlaylists | create_playlists.py:63-114 | every playlist written for a course has a video |
| Playlists.CourseOf | create_playlists.py:76-114 | the module playlists, then the full-course playlist when there are videos: none of them empty |
| Playlists.CreatePlaylistsForCourse | create_playlists.py:63-114 | raises exactly when sorting the modules raises, and otherwise writes the course's playlists |
| Playlists.NoEmptyPlaylist | create_playlists.py:82-96 | no run writes an empty playlist |
| Playlists.ProcessCourses | create_playlists.py:125-129 | the course loop skips files, dot-folders and `shared_assets`, writes each course's playlists in listing order, and stops at the first raise |
| Playlists.ProcessAllCourses | create_playlists.py:117-129 | nothing is written when the root does not exist; otherwise the course loop runs over its listing |
| Quiz.ClicksStart | coursera/extractors/quiz.py:73-79 | the start button is pressed exactly when the URL is not an attempt URL or is an `/assignment-submission` URL |
| Quiz.NextItemInAnyCase | coursera/extractors/quiz.py:206-208 | "next item" in the button text in any casing makes the button unsafe |
| Quiz.SubmissionStays | coursera/extractors/quiz.py:191-195 | landing on a submission page that is not a home page is never rolled back |
| Quiz.SafeAndClick | coursera/extractors/quiz.py:175-201 | a click counts exactly when the button is displayed, enabled, safe, does not raise and lands inside the assessment; a safe click that lands on `/home/` or on a `/learn/` page outside /assignment, /quiz and /attempt navigates back and does not count |
| Quiz.TryClickStart | coursera/extractors/quiz.py:156-173 | the buttons are tried in order and the first that clicks ends the search; none clicked means every button failed |
| Quiz.ClickStartButton | coursera/extractors/quiz.py:128-145 | the start loop runs one to three turns, goes on only after a barrier or a start click, stops early otherwise, and always returns True |
| Quiz.IsLoaded | coursera/extractors/quiz.py:91-101 | the page is loaded when the URL is an attempt or some selector finds an element that is not the search bar |
| Quiz.WaitLoaded | coursera/extractors/quiz.py:103-108 | the wait succeeds exactly when some poll sees the page loaded |
| Quiz.PreparePage | coursera/extractors/quiz.py:71-108 | the start loop runs exactly when the URL calls for it, at most three turns, and the page is ready exactly when a poll sees it loaded |
| Quiz.MetaParts | coursera/extractors/quiz.py:117-122 | the header parts are non-blank and on one line each |
| Quiz.Header | coursera/extractors/quiz.py:117-122 | the header is a single line, empty when every text is blank |
| Quiz.ExtractMetadata | coursera/extractors/quiz.py:110-126 | the header of the first selector that finds any element, even with blank texts, else "" |
| Quiz.AggregateEmpty | coursera/extractors/quiz.py:231-248 | the content is empty exactly when no element is kept (not a short search-bar fragment, outer HTML longer than 100) |
| Quiz.AggregateEndsWithBreak | coursera/extractors/quiz.py:244-245 | non-empty content ends with the `\n<br>\n` that follows every kept element |
| Quiz.ContentTurn | coursera/extractors/quiz.py:235-245 | a short search-bar fragment is skipped with nothing localised; another element has its images localised and contributes its piece |
| Quiz.ExtractAssignmentContent | coursera/extractors/quiz.py:221-248 | the content is the aggregation of the elements' pieces after localisation, in selector order, and the image count is at most the number of sources of kept elements |
| Quiz.QuizFileFound | coursera/extractors/quiz.py:48 | below counter 1000 the page is named like every item, so the slug glob of a later run finds it and the renumbering guard holds |
| Quiz.MetaHtml | coursera/extractors/quiz.py:273-275 | the meta line starts with the type and gains the info part exactly when the header is non-empty |
| Quiz.Process | coursera/extractors/quiz.py:29-69 | a page that does not load gives (False, 0) and changes nothing; no content gives (False, 0); otherwise the wrapped page is saved and the result is (True, image_count + 1), unless the write raises |
| Quiz.SaveQuiz | coursera/extractors/quiz.py:43-62 | the stylesheets are stored, the page is placed as `<counter:03d>_<title>_<type>.html` and the wrapped page written there, raising exactly when that name is a directory |
| Reading.FirstShownIsFirst | coursera/extractors/reading.py:102-109 | no selector before the chosen one shows its element |
| Reading.ExtractContent | coursera/extractors/reading.py:98-109 | the first selector, in list order, whose element is displayed gives its inner HTML and itself; (None, None) exactly when no selector's element is displayed |
| Reading.AttachmentNameFromHref | coursera/extractors/reading.py:125-126 | with blank link text an href `<dir>/<stem>.<ext>` with a clean stem is stored as `<counter:03d>_<stem>.<ext>` |
| Reading.AttachOne | coursera/extractors/reading.py:120-134 | an empty or already downloaded href is skipped and changes nothing; another is placed under its numbered name; it is counted only when its download ran and succeeded, and it is counted whenever its target was vacant and the fetch succeeds |
| Reading.AttachReached | coursera/extractors/reading.py:119-134 | every anchor whose href was present and new at its turn, whose target was vacant then and whose fetch succeeds ends in the downloaded set |
| Reading.DownloadAttachments | coursera/extractors/reading.py:111-139 | the count is the number of hrefs added to `downloaded`, each a present href of the page whose fetch succeeded; every new href with a vacant target and a successful fetch is added; the dictionary maps exactly the present, not yet downloaded hrefs, each once, to the name of an anchor with that href; only the module directory gains files |
| Reading.ReplaceEachAbsent | coursera/extractors/reading.py:150-151 | HTML that mentions none of the hrefs is left unchanged |
| Reading.ReplaceLinks | coursera/extractors/reading.py:150-151 | the loop replaces each dictionary href by its local name, in dictionary order |
| Reading.LearnLinkLen | coursera/extractors/reading.py:154 | a match of `href="/learn/.*?/reading/.*?"` starts with `href="/learn/`, contains `/reading/` and ends with a quote |
| Reading.NoLearnLinkUnchanged | coursera/extractors/reading.py:154 | HTML without `href="/learn/` is left unchanged |
| Reading.ReadingLinkRewritten | coursera/extractors/reading.py:154 | an internal link `href="/learn/<x>/reading/<y>"` becomes `href="#"` and the scan goes on after it |
| Reading.LocalizeReadingAssets | coursera/extractors/reading.py:141-157 | the body's images are localised first; the HTML then has every dictionary href replaced and every internal reading link pointed at "#"; with no body the result is "" and nothing is stored |
| Reading.Process | coursera/extractors/reading.py:30-65 | attachments are downloaded whatever the page holds; success exactly when content is found and the page write does not raise, and then the page `<counter:03d>_<title>.html` holds the wrapped, localised body and is the only file reported; without content the result is (False, new_dl, []) |
| Reading.StorePage | coursera/extractors/reading.py:49-62 | the page is placed as `<counter:03d>_<title>.html`, the course stylesheets are stored and the wrapped page is written, which raises exactly when that name is a directory |
| Scraper.ClassifierFollowsMarkerOrder | coursera/scraper.py:114-128 | the chain of substring tests is the ordered marker table (lecture, video-item, reading, quiz, exam, assignment, ungradedLab, lab, supplement): the earliest marker present decides the kind |
| Scraper.OtherIffNoMarker | coursera/scraper.py:127-128 | a URL is classified "other" if and only if it carries none of the nine markers |
| Scraper.VideoMarkerWins | coursera/scraper.py:116-117 | a URL containing `/lecture/` is a video whatever else it contains |
| Scraper.TitleFromUrl | coursera/scraper.py:145-151 | the URL fallback title is never empty and always sanitised |
| Scraper.TitleIgnoresQuery | coursera/scraper.py:147 | the query string never changes the fallback title |
| Scraper.TitleIgnoresTrailingSlash | coursera/scraper.py:147 | trailing slashes never change the fallback title |
| Scraper.TitleOfLastSegment | coursera/scraper.py:148-149 | the fallback title of `.../<segment>` is that segment sanitised |
| Scraper.CourseDir | coursera/scraper.py:87-88 | the course directory is one sanitised, non-empty name below the download directory |
| Scraper.CourseDirOfSlug | coursera/scraper.py:87-88 | that name is the last `/` segment of the course URL, sanitised |
| Scraper.NewItemsCount | coursera/scraper.py:285-291 | each new link grows the visited set by exactly one |
| Scraper.NewItemsCounters | coursera/scraper.py:290-296 | the counter of each new item is the size of the visited set after inserting it: consecutive from the old size plus one |
| Scraper.NewItemsUrls | coursera/scraper.py:285-291 | the handled URLs are exactly the module's links not yet visited, each once |
| Scraper.ModuleStep | coursera/scraper.py:285-299 | one link of the loop is skipped when visited and otherwise counted, inserted and handled with the next counter |
| Scraper.ProcessModule | coursera/scraper.py:262-301 | a module without links returns (0, 0) and changes nothing; otherwise the visited set gains the links, the processed count is the number of new links and the download count sums their materials |
| Scraper.ModuleTurn | coursera/scraper.py:104-108 | one pass of the module loop: it stops exactly where the rest of the course downloads nothing, and otherwise the module's downloads plus the rest give the course total from there |
| Scraper.GetCourseContent | coursera/scraper.py:80-112 | the course directory is derived from the URL and the total is the sum of module downloads up to the first module that processes and downloads nothing |
| Scraper.CourseCounters | coursera/scraper.py:285-299 | over a whole course the item counters are 1, 2, 3, ... in visiting order: course-global, 1-based and strictly increasing |
| Scraper.RepeatedModuleStops | coursera/scraper.py:104-106 | a module whose links were all seen before ends the course: later modules are never visited |
| Scraper.ExistingTarget | coursera/scraper.py:229-241 | an existing `NNN_rest` with another prefix is registered under the current counter's prefix with the same rest; any other name is kept |
| Scraper.ExistingTargetNumbered | coursera/scraper.py:229-234 | below counter 1000 a renumbered name carries the current prefix, the same length and the same rest |
| Scraper.ExistingTargetPast999 | coursera/scraper.py:229-234 | from counter 1000 on the prefix has four digits, so a renumbered name fails the `name[3] == "_"` guard and is never renumbered again |
| Scraper.InModule | coursera/scraper.py:215-221 | the existing items kept are exactly the found ones whose parent is the module directory |
| Scraper.HandleExistingItems | coursera/scraper.py:213-243 | true exactly when the module already holds materials of the item; then each of them goes through `get_or_move_path` under its registered name and that path joins `downloaded_files` whether or not a file ended up there; every item whose target was not vacant when its turn came is at its registered path at the end; otherwise nothing changes; no new file appears outside the module directory |
| Scraper.RegisterAll | coursera/scraper.py:228-242 | the loop adds exactly the registered paths of the existing items to `downloaded_files`; each step is one placement (the target is absent exactly when it was vacant, other module entries are kept), and every item whose target was not vacant at its step is at its registered path at the end; no new file appears outside the module directory |
| Scraper.ExtractorCount | coursera/scraper.py:185-205 | the dispatch adds the extractor's count, and nothing for the supplement and other kinds, which have no extractor |
| Scraper.ItemMaterials | coursera/scraper.py:153-183 | an item already on disk contributes 0; otherwise a kind with an extractor contributes its extractor count plus the PDF count, and a kind without one only the PDF count |
| Subtitles.Disk.constructor | apply_subtitles.py:15 | the disk holds the given files |
| Subtitles.Target | apply_subtitles.py:23-25 | the copy is always a `.vtt` file |
| Subtitles.TargetOf | apply_subtitles.py:23-25 | for `<base>_heb.vtt` the copy is `<base>.vtt` in the same folder |
| Subtitles.StepFileGrows | apply_subtitles.py:17-50 | one file only adds a `.vtt` file, never changes or removes one, and counts what it adds |
| Subtitles.StepDirGrows | apply_subtitles.py:16-50 | one folder's files only add `.vtt` files and count them |
| Subtitles.StepWalkGrows | apply_subtitles.py:15-50 | over the whole walk no existing file is overwritten or removed, every new file is a `.vtt`, and the count is the number of copies made |
| Subtitles.StepFileCopies | apply_subtitles.py:29-48 | a Hebrew caption confirmed by a video or by the English captions, whose target is free, is copied there with its contents unless the copy raises |
| Subtitles.VideoExists | apply_subtitles.py:29-34 | the loop over `.mp4`, `.mkv`, `.webm` finds whether a video of that name is on disk |
| Subtitles.ApplyFile | apply_subtitles.py:17-53 | the inner-loop body changes the disk and the count as `StepFile` says |
| Subtitles.ApplySubtitles | apply_subtitles.py:7-55 | the walk changes the disk and the count as `StepWalk` says |
| Summaries.GetHtmlFiles | summarize_readings.py:111-123 | the walk collects exactly the reading pages, sorted |
| Summaries.HtmlFilesExactly | summarize_readings.py:111-123 | every path listed ends in `.html` and comes from a name without a skip word; every such file of the walk is listed, and the list is sorted |
| Summaries.VideoPathOf | summarize_readings.py:283-285 | for a page `base.html` the companion video is `base.mp4` |
| Summaries.FindContains | summarize_readings.py:223-235 | `sub in s` exactly when a search for `sub` stops inside `s` |
| Summaries.Before | summarize_readings.py:235 | `split(m)[0]` is the prefix before the first `m`, or the whole text when there is none |
| Summaries.BeforeAt | summarize_readings.py:228-235 | the text before the first `m` is what `split` keeps first |
| Summaries.SecondAt | summarize_readings.py:233 | `split(m)[1]` after a leading `m` is the text up to the next one |
| Summaries.SummaryOf | summarize_readings.py:229-237 | the summary has no surrounding whitespace |
| Summaries.ContentUpdates | summarize_readings.py:196-243 | a text under 100 characters, a failed request or an answer without the separator gives no summary and keeps the context; any summary has no surrounding whitespace |
| Summaries.SummaryOfMarked | summarize_readings.py:229-237 | the marked block of an answer is its summary |
| Summaries.AnswerRoundTrip | summarize_readings.py:196-238 | an answer in the requested layout parses back into the summary and the context it was made from |
| Summaries.FindIn | summarize_readings.py:144-152 | `find` returns a node the query matches |
| Summaries.TargetQuery | summarize_readings.py:152-182 | the target is the content wrapper, else the body, and is absent exactly when neither exists |
| Summaries.Box | summarize_readings.py:174-180 | the new box is a `div` of class `ai-summary-box` |
| Summaries.InsertFinds | summarize_readings.py:182-184 | after `target.insert(0, box)` the target is found with the box as its first child |
| Summaries.InsertAdds | summarize_readings.py:182-184 | whatever matches the box can be found once it is inserted |
| Summaries.DeleteInsert | summarize_readings.py:182-184 | taking the box out again gives back the page as it was |
| Summaries.Inject | summarize_readings.py:164-189 | nothing is written when a box is there already, or when there is no wrapper and no body |
| Summaries.InjectPlacesBox | summarize_readings.py:176-186 | a written page holds the box as the first child of the wrapper (else of the body), and removing it gives back the page read |
| Summaries.InjectIdempotent | summarize_readings.py:170-171 | a written page has a box, so a second injection writes nothing |
| Summaries.Pieces | summarize_readings.py:155 | every text piece is non-empty and stripped |
| Summaries.Collapse | summarize_readings.py:157 | `re.sub(r"\n{3,}", "\n\n")` leaves no three newlines in a row, keeps an empty text empty and keeps whether the text starts with a newline |
| Summaries.CollapseKeeps | summarize_readings.py:157 | a text without three newlines in a row is left as it is |
| Summaries.CollapseIdempotent | summarize_readings.py:157 | collapsing twice collapses nothing more |
| Summaries.ExtractText | summarize_readings.py:136-161 | a read failure gives the empty text; a quiz page exactly gives no text; a page without wrapper and body gives the empty text; the text never has three newlines in a row |
| Summaries.SummarizeFile | summarize_readings.py:246-261 | a missing file or one with a box counts as done and keeps the context; an unreadable or quiz page fails and keeps the context; a failure writes nothing; a written page had no box and now has one |
| Summaries.SummarizeTwice | summarize_readings.py:248-249 | a file once summarized is skipped the next time and its context is passed on unchanged |
| Summaries.CourseFile | summarize_readings.py:267-273 | only a readable, non-quiz page without a box is rewritten, and then it has a box; an unreadable or quiz page changes nothing |
| Summaries.CourseRun | summarize_readings.py:264-274 | one outcome per file of the course |
| Summaries.ProcessCourse | summarize_readings.py:264-274 | the loop threads the context through the files in order, as `CourseRun` says |
| Summaries.CourseWrites | summarize_readings.py:264-274 | only readable, non-quiz pages without a box are written, and each page written has one |
| Utils.SubNonAlnumRuns | coursera/utils.py:30 | every maximal run outside `[a-z0-9]` becomes one underscore: the result has only `[a-z0-9_]`, never two underscores in a row, keeps a leading letter or digit, and is empty exactly when the input is |
| Utils.KeepAlnum | coursera/utils.py:41 | the extension cleaning keeps only `[a-z0-9]` and never lengthens |
| Utils.StripUnderscores | coursera/utils.py:34 | stripping underscores from a `[a-z0-9_]` text without doubled underscores leaves it empty or a clean name (no leading or trailing underscore) |
| Utils.CleanNamePart | coursera/utils.py:30-37 | the name pipeline (lower, substitute runs, collapse, strip, "untitled" when empty) always yields a clean, non-empty name |
| Utils.ExtensionDot | coursera/utils.py:15-26 | an extension is kept exactly when the input has a dot and the text after its last dot is accepted (at most five characters that lower to `[a-z0-9]`); otherwise the whole input is the name |
| Utils.SanitizeFilename | coursera/utils.py:4-44 | an empty input gives "untitled"; the result is never empty |
| Utils.CollapseNoDouble | coursera/utils.py:32 | the `_+` collapse is the identity after the run substitution, which already leaves no doubled underscore |
| Utils.SanitizeKeepingExtension | coursera/utils.py:17-42 | when an extension is kept, the result is the cleaned name, one dot and the cleaned extension, and that dot is the result's last |
| Utils.SanitizedShape | coursera/utils.py:4-44 | every result is lowercase `[a-z0-9_]` words without `__` or edge underscores, with at most one dot followed by a one-to-five character `[a-z0-9]` extension |
| Utils.ExtensionKeptIff | coursera/utils.py:15-42 | the result contains a dot if and only if the last dot of the input starts an accepted extension, and then it ends with that extension cleaned |
| Utils.DotInSanitized | coursera/utils.py:17-42 | a dot appears in the result if and only if an extension was kept |
| Utils.SanitizeIdempotent | coursera/utils.py:4-44 | sanitising a sanitised name changes nothing |
| Utils.SanitizedFixed | coursera/utils.py:4-44 | every name of the sanitised shape is a fixed point of `sanitize_filename` |
| Utils.SlugSegment | coursera/utils.py:58-69 | the segment kept is one of the URL's segments |
| Utils.ExtractSlug | coursera/utils.py:47-71 | the slug is empty exactly when the URL is empty or has no non-empty path segment, and is otherwise a sanitised name |
| Utils.SlugIgnoresQuery | coursera/utils.py:51-52 | text after `?` never changes the slug |
| Utils.SlugOfLastSegment | coursera/utils.py:68-71 | a URL ending in an ordinary segment yields that segment sanitised |
| Utils.SlugSkipsSubPage | coursera/utils.py:58-67 | a trailing `attempt`, `submission`, `view`, `instructions`, `gradedLab` or `ungradedLab` segment is skipped for the one before it |
| Utils.SlugOfLoneSubPage | coursera/utils.py:67 | a URL whose only segment is a sub-page word keeps that word |
| Video.FirstHdHrefIsFirst | coursera/extractors/video.py:93-105 | the button strategy uses the link of the first button whose text or href contains "720p" or "1080p", and has none exactly when no button does |
| Video.PickHdButton | coursera/extractors/video.py:95-101 | the search loop finds that first HD button's link |
| Video.TryButtons | coursera/extractors/video.py:83-108 | the strategy succeeds exactly when there is an HD button and its download lands on the target |
| Video.ResolutionFound | coursera/extractors/video.py:280 | text before the first digit does not hide a resolution: "HD 720p" reads as 720 |
| Video.ResolutionSound | coursera/extractors/video.py:280-282 | a resolution is only read from a digit run immediately followed by 'p' |
| Video.ResolutionComplete | coursera/extractors/video.py:280-282 | any digit followed by 'p' yields a resolution |
| Video.Max | coursera/extractors/video.py:287 | `max` of a non-empty set of resolutions is a member no smaller than any other |
| Video.ClickHighestResolution | coursera/extractors/video.py:270-289 | no option is clicked exactly when no option names a resolution; otherwise the option clicked has the highest resolution and is the last option with it |
| Video.SwitchQualityToHd | coursera/extractors/video.py:188-201 | an option is clicked only when the quality menu opens, and then the highest-resolution one |
| Video.TryVideoTag | coursera/extractors/video.py:110-126 | the strategy succeeds exactly when the `<video>` element has a source that is not `blob:` and its download lands; it switches to the highest quality first |
| Video.M3u8UrlsArePlaylists | coursera/extractors/video.py:161-163 | every URL found in the page source is an http(s) URL containing ".m3u8" and no quote or backslash |
| Video.QuotedPlaylistFound | coursera/extractors/video.py:161-163 | a playlist URL between double quotes is found, whole and alone |
| Video.ManifestInDomSound | coursera/extractors/video.py:149-169 | the manifest URL names an m3u8 or mpd file; without a `<video>` element offering one it is a page-source playlist URL on coursera or cloudfront |
| Video.FindManifestInDom | coursera/extractors/video.py:149-169 | the loops return the first `<video>` source naming a manifest, else the first CDN playlist URL of the page source |
| Video.TryManifest | coursera/extractors/video.py:128-147 | the strategy needs a browser manager and succeeds exactly when the network or DOM manifest URL downloads onto the target |
| Video.TryYtDlp | coursera/extractors/video.py:171-186 | the strategy needs an item URL and succeeds exactly when yt-dlp delivers it onto the target |
| Video.DownloadSubtitles | coursera/extractors/video.py:291-313 | at most the one `_en.vtt` file is returned; an existing non-empty file, including one just moved in from an older layout, is returned as is; a non-empty track list with no success leaves every track failed; no tracks changes nothing; the video's entry is kept |
| Video.RunStrategies | coursera/extractors/video.py:57-67 | strategies run in the fixed order buttons, video tag, manifest, yt-dlp; the first to deliver ends the loop and its file is saved; with none nothing changes |
| Video.Deliver | coursera/extractors/video.py:48-69 | an existing non-empty video returns success without trying any strategy; the files list is the subtitle then the delivered video; the count is 1 exactly when the video file exists; success means some file was saved or the video exists |
| Video.Process | coursera/extractors/video.py:30-69 | the video target is placed first: it is absent exactly when vacant, and otherwise holds what was found at the target or in an older layout; the subtitle phase keeps that entry; a non-empty video found there is returned as is, with count 1 and no strategy run; otherwise subtitles are tried, then the strategies; the result is (files saved or video present, 1 if the video exists else 0, subtitle then video); no new file appears outside the module directory |
| Walk.CollectFiles | translate_captions.py:21-27 | the walk loop collects exactly the accepted files, joined to their directory, in walk order |
| Walk.FindFiles | summarize_readings.py:111-123 | the files found are the collected files, sorted |
| Walk.FoundExactly | translate_captions.py:21-28 | every path found is an accepted file of the walk, every accepted file is found, and the result is sorted |
| Files.FetchInto | coursera/files.py:138-162 | downloading a new file into a folder succeeds exactly when the server answers, and then the file is there; a failure changes nothing; nothing outside the target changes |
| Files.PlaceInModule | coursera/files.py:47-104 | the path is always `<module>/<name>` and the module folder exists afterwards; no new file appears outside the module folder; a vacant name is left free; otherwise the path holds the entry found at the target or moved in from an exact or renumbering source; every module entry that is not a renumbering candidate of the name is kept |
| Files.MovedIn | coursera/files.py:70-102 | a successful move puts the source's entry at the target and keeps every module entry that is not a renumbering candidate of the name |
| Files.SparedNotUnder | coursera/files.py:70-102 | a moved source never contains a module entry other than the name and its renumbering candidates |
| Files.ListInSomeOrder | coursera/files.py:16 | a listing yields every entry exactly once, in an order the model does not fix |
| Files.SlugMatchesIff | coursera/files.py:123 | the glob `[0-9][0-9][0-9]_<slug>*` in a folder matches exactly its entries named that way |
| Files.StaleMember | coursera/files.py:16-22 | a child of the course folder is stale exactly when it is a `module_<n>` folder whose number is not valid |
| Files.SiblingsUntouched | coursera/files.py:16-27 | removing stale folders leaves every other child as it was |
| Scraper.StripTrailingSlashes | coursera/scraper.py:147 | `rstrip("/")` removes exactly the trailing slashes |
| Scraper.BeforeQuery | coursera/scraper.py:147 | `split("?")[0]` drops the query string |
| Scraper.RegisterItem | coursera/scraper.py:228-242 | one existing item: its registered name goes through `get_or_move_path`; the target is absent exactly when it was vacant, and module entries that are not renumbering candidates of it are kept; no new file appears outside the module folder |
| Scraper.RegisterTurn | coursera/scraper.py:228-242 | one pass of the loop keeps the loop state: paths registered so far, the step trace and the items placed so far |
| Scraper.TracedSnoc | coursera/scraper.py:228-242 | a placement step extends the trace by one state |
| Scraper.PlacedStep | coursera/scraper.py:228-242 | an item placed at an earlier step stays at its registered path after one more step |
| Scraper.TargetsSpared | coursera/scraper.py:229-234 | two registered names in the same module are equal or neither is a renumbering candidate of the other |
| Scraper.GuardedTargetPrefixed | coursera/scraper.py:229-234 | a registered name that looks numbered carries its counter as a three-digit prefix |
| Walk.Join | translate_captions.py:27 | `os.path.join` of a folder and a file name ends with the name |
| Reading.FirstShown | coursera/extractors/reading.py:102-109 | the chosen selector's element is displayed, and when none is chosen no selector's element is |
| Reading.AttachTurn | coursera/extractors/reading.py:119-134 | one anchor of the attachment loop: a tried href enters the dictionary, a successful download enters the set and the count, and only the module folder changes |
| Reading.Attach | coursera/extractors/reading.py:111-139 | the attachment phase records every tried href, counts exactly the hrefs newly downloaded, each present on the page and served, and keeps the module layout |
| Reading.FirstReading | coursera/extractors/reading.py:154 | the lazy `.*?` stops at the first `/reading/` on the same line |
| Reading.FirstQuote | coursera/extractors/reading.py:154 | the second lazy `.*?` stops at the first `"` on the same line |
| Reading.LocalizeInModule | coursera/extractors/reading.py:141-157 | without a body the HTML is empty; otherwise it is the rendered body with dictionary hrefs replaced and internal reading links neutralised, and the module layout is kept |
| Video.Attempt | coursera/extractors/video.py:83-186 | a strategy's download succeeds exactly when it has a URL and the fetch lands on the target |
| Video.TryStrategy | coursera/extractors/video.py:57-62 | calling one element of the strategy list succeeds exactly when its URL is fetched onto the target |
| Video.StrategyTurn | coursera/extractors/video.py:64-67 | one pass of the strategy loop is done exactly when the strategy gets a response and the target is not a folder, and then the file is saved; otherwise nothing changes |
| Video.SubtitleTurn | coursera/extractors/video.py:299-309 | one track: found means the `_en.vtt` file is there; an existing non-empty file, also one moved in from an older layout, is found without fetching; no new file appears outside the module folder; the video's entry is kept |
| Video.VideoSpared | coursera/extractors/video.py:43-54 | the video file is neither the subtitle file nor a renumbering candidate of it |
| Video.SubtitleFiles | coursera/extractors/video.py:47-49 | each subtitle path is listed once, tagged as a subtitle, in order |
| Video.DigitRun | coursera/extractors/video.py:280 | the run of digits at the front of a text is maximal |
| Video.PlaylistMatch | coursera/extractors/video.py:161-163 | the match of the playlist pattern at the front of a text lies within it |
| Common.WritePage | coursera/extractors/reading.py:59-60 | writing the page puts it at its path and adds no other file |
| Common.AssetTurn | coursera/extractors/common.py:124-144 | one asset is stored or its fetch failed, and every earlier asset stays so |
| Common.CssTags | coursera/extractors/common.py:34-65 | at most one tag per stylesheet link |
| Dashboard.Tags | generate_dashboard.py:315-321 | one tag per file of the module folder, in order, each the file's key and role or none |
| Dashboard.KeyList | generate_dashboard.py:317-320 | a key is listed exactly when some file is tagged with it |
| Dashboard.ItemsFor | generate_dashboard.py:337-384 | at most one item per key, each with a non-empty path |
| Dashboard.CourseOf | generate_dashboard.py:294-390 | the course carries its folder's name and every module kept has an item |

## Left out

- Base.Lower: `str.lower()` is modelled for ASCII only; the few non-ASCII characters whose Python lowercase is an ASCII letter (the Kelvin sign U+212A lowers to `k`) stay unchanged in the model, so `Utils.SanitizeFilename` turns them into `_` where Python keeps a letter.
- Base.Title: `str.title()` is modelled for ASCII letters only; a non-ASCII letter neither changes case nor starts a new word in the model.
- Base.Strip: `str.strip()` removes ASCII whitespace (`Base.IsSpace`) only; Unicode spaces such as U+00A0 stay, which also affects `Summaries.ExtractText`, `Summaries.SummaryOf` and `Captions.Translatable`.
- Base.IsDigit: `isdigit()` and the regex class `\d` are `0`-`9` only; Unicode digits (Arabic-Indic, fullwidth) are not digits in the model, which affects `Captions.IsMetadata`, `Captions.IsTimestamp`, `Dashboard` and `Navigator` prefixes.
- Base.IsAlpha: `isalpha()` is ASCII letters only, so a caption line whose only letters are non-ASCII (Hebrew, accented) is not `Captions.Translatable` in the model.
- Utils.ExtensionAccepted: matches the ASCII regex `^[a-z0-9]+$` after the ASCII lowering above; the regex itself is ASCII in Python too.
- FixLinks.Unquote: decodes a `%XX` escape only when its value is below 128; Python's `unquote` also decodes UTF-8 sequences such as `%C3%A9`, so an attachment whose URL name has non-ASCII escapes does not match in the model.
- Files.DownloadFile: a request that raises leaves the disk unchanged in the model; in the program a failure after `mkdir` and `open` (coursera/files.py:148-157) can leave new directories and an empty or partial file, which the next run's size check then skips as done.
- Legacy.DownloadFile: the same partial-file error path of the legacy `download_file` (coursera_scraper.py:189-193) is not modelled; a failed request leaves `sizes` unchanged (`Legacy.DownloadSpec`).
- Video.TryYtDlp: `download_video` (coursera/files.py:165-205) is yt-dlp, a foreign call, and is an input `ytdlp: string -> Option<nat>`; the temporary `cookies.txt` it writes into the download directory and unlinks afterwards is not modelled.
- Files.GetOrMovePath: it requires that no file lies on the module path; `module_dir.mkdir(exist_ok=True, parents=True)` raising `FileExistsError` or `NotADirectoryError` when a file is there (coursera/files.py:56) is not modelled, and neither are its callers `Files.PlaceInModule`, `Scraper.RegisterItem`, `Video.SubtitleTurn` and `Video.Process` on that path.
- Files.GetUniqueSearchDirs: `Path.resolve()` is taken as the identity (no symbolic links), so directories are deduplicated by path equality; the same holds for `Files.FindItems`.
- Navigator.PageOf: only the subtitle-track choice and the sidebar of `create_video_html` are modelled; `process_html_file` (create_course_navigator.py:171-253), which re-wraps an existing page with the sidebar, is not, including its `except Exception` that swallows the `TypeError` raised when a `<style>` or `<script>` tag has no single string; the page template text of `create_video_html` and `create_lab_html` is not modelled either.
- Captions.ProcessVttFile: the translator is an unconstrained input `translate: string -> Option<string>`; it may return any text, `Some("")` included, not only what `clean_translation` (`Captions.CleanTranslation`) makes of an LLM answer, so a merged line can be just `"\n"`.
- Captions.ProcessVttFile: each caption line is sent to the model as its own concurrent request (`asyncio.gather`), and the service may answer two equal lines differently; the model's `translate` is a function of the text alone, so equal lines always get equal translations and the order and concurrency of the requests are not modelled.
- Compress.TempPath: splits the path at `/` only; the program runs on Windows (compress_all_videos_gpu.py:28-30, 122), where `os.path.dirname` also splits at `\`, so a backslash path gets `temp_compressed_` before its whole text in the model.
- Legacy.GetCourseContent: the video "Download"-button pass and the reading save and attachment download (coursera_scraper.py:390-406, 448-556) are not modelled; what an item contributes is a free parameter `itemMaterials`, not tied to `Legacy.DownloadVid`, `Legacy.DownloadPdfs` or `Legacy.DownloadResources`.
- Summaries.ProcessCourse: `summarize_all_readings` (summarize_readings.py:300-312) is not modelled: the `is_video` filter over all files, the grouping by course directory, the choice of courses with a missing summary, and the `ValueError` that `relative_to(ROOT_DIR)` raises when the scanned root is not ROOT_DIR; the Ollama server start and stop and the thread pool around it are left out as I/O and concurrency.
- Lab.PrepareFinalReplacements: builds the corrected map `Lab.Final`, not the map the program computes (`Lab.FinalAsWritten`); see Findings. Its only caller `_update_ipynb_references` is never called from the program.
- Lab.UpdateIpynbReferences: uses the corrected map of `Lab.PrepareFinalReplacements`, as above.
- Quiz.ExtractAssignmentContent: the image count is bounded by the number of kept image sources, and the contract does not say which images were localised.
- Reading.DownloadAttachments: the local name mapped to an href is the name of some anchor with that href; the program keeps the name of the last such anchor.
- Reading.Process: requires that the module directory and the shared assets directory are apart (neither inside the other), which is how the scraper lays them out.
- Files.ListInSomeOrder: `glob` and `iterdir` order is not fixed; contracts that depend on a listing hold for every order, and the first-found choice among several same-suffix files is left open.
- Login and cookie persistence (coursera/auth.py), the Chrome driver (coursera/browser.py), popup and barrier clicking (coursera/extractors/base.py), main.py's worker threads and queue, and manage_courses.py's menu are not part of this model: browser automation, concurrency and an interactive launcher.
- Waits, `time.sleep`, retries by timeout, printing, tracebacks, the floating-point size and time statistics of compress_all_videos_gpu.py, and the asyncio gather and semaphore of translate_captions.py are left out.
- HTML parsing and serialisation (BeautifulSoup) are replaced by plain inputs (element lists, rendered bodies) and an uninterpreted `wrap` for the page templates.

## Findings

| source | as written | input that shows it | evidently intended | confidence | as-written member | corrected member |
|---|---|---|---|---|---|---|
| coursera/extractors/lab.py:171-178 | for a shared file whose original path has no `/`, the backslash variant is stored under the same key and overwrites the forward mapping with a path of doubled backslashes | replacements `{"data.csv": "x.csv"}` with dots `"../"`: the final map sends `data.csv` to `..\\shared_assets\\labs\\x.csv`, which the `re.sub` template then writes into the notebook as `..\shared_assets\labs\x.csv` | `data.csv` maps to `../shared_assets/labs/x.csv` | not executed | Lab.FinalAsWritten, Lab.BareNameGetsBackslashes | Lab.Final, Lab.FinalKeepsNewPath |
