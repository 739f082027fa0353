/**
 * How the extension chooses the header for a document: the extension of its
 * file name, the four-level lookup of `resolveCopyrightHeader` over the
 * `extensionHeaders` and `headerText` settings, the joining of a header
 * given as lines, and the `fileExtensions` filter applied on save.
 */
module HeaderConfig {
  import opened Wrappers
  import opened Strings

  /** A header setting: one string, or an array of lines. */
  datatype HeaderValue = Text(text: string) | Lines(lines: seq<string>)

  /**
   * An `extensionHeaders` record as `Object.entries` lists it: keys such as
   * `"ts, js"` (comma-separated extensions) with their header, in order.
   */
  type HeaderMap = seq<(string, HeaderValue)>

  /**
   * What `config.inspect` reports for one setting: its value at each level,
   * `None` where that level does not define it.
   */
  datatype Inspected<T> = Inspected(
    defaultValue: Option<T>,
    globalValue: Option<T>,
    workspaceValue: Option<T>,
    workspaceFolderValue: Option<T>)

  /** The two settings `resolveCopyrightHeader` consults. */
  datatype Settings = Settings(extensionHeaders: Inspected<HeaderMap>, headerText: Inspected<HeaderValue>)

  // ---------------------------------------------------------------------
  // The file extension

  /** `fileName.substring(fileName.lastIndexOf('.') + 1).toLowerCase()`, or `''` without a dot. */
  function FileExtension(fileName: string): (ext: string)
    ensures '.' !in ext
    ensures ToLower(ext) == ext
    ensures '.' !in fileName ==> ext == ""
  {
    var i := LastIndexOfChar(fileName, '.');
    if i >= 0 then
      var suffix := fileName[i + 1..];
      LowerKeepsDots(suffix);
      LowerIdempotent(suffix);
      ToLower(suffix)
    else ""
  }

  lemma LowerKeepsDots(s: string)
    requires '.' !in s
    ensures '.' !in ToLower(s)
  {
    forall i | 0 <= i < |s| ensures ToLower(s)[i] != '.' {
      assert s[i] != '.';
    }
  }

  lemma LowerIdempotent(s: string)
    ensures ToLower(ToLower(s)) == ToLower(s)
  {
    var once := ToLower(s);
    forall i | 0 <= i < |s| ensures ToLower(once)[i] == once[i] {
      assert once[i] == ToLowerChar(s[i]);
    }
  }

  /** The extension is what follows the last dot, lower-cased, whatever comes before it. */
  lemma FileExtensionAfterLastDot(stem: string, ext: string)
    requires '.' !in ext
    ensures FileExtension(stem + "." + ext) == ToLower(ext)
  {
    var name := stem + "." + ext;
    assert name[|stem|] == '.' && name[|stem| + 1..] == ext;
    LastIndexOfCharAt(name, '.', |stem|);
  }

  // ---------------------------------------------------------------------
  // Matching a key of `extensionHeaders`

  /** `.map(k => k.trim().toLowerCase())` */
  function Cleaned(parts: seq<string>): (exts: seq<string>)
    ensures |exts| == |parts|
    ensures forall i :: 0 <= i < |parts| ==> exts[i] == ToLower(Trim(parts[i]))
  {
    seq(|parts|, i requires 0 <= i < |parts| => ToLower(Trim(parts[i])))
  }

  /** `key.split(',').map(k => k.trim().toLowerCase())` */
  function KeyExtensions(key: string): (exts: seq<string>)
    ensures |exts| == |Split(key, ',')|
    ensures forall i :: 0 <= i < |exts| ==> exts[i] == ToLower(Trim(Split(key, ',')[i]))
  {
    Cleaned(Split(key, ','))
  }

  /** Some part, trimmed and lower-cased, is `fileExt`. */
  predicate SomePartIs(parts: seq<string>, fileExt: string) {
    exists i :: 0 <= i < |parts| && ToLower(Trim(parts[i])) == fileExt
  }

  /** `.includes(fileExt)` on those extensions: one comma-separated part of the key is `fileExt` once trimmed and lower-cased. */
  function KeyMatches(key: string, fileExt: string): (b: bool)
    ensures b <==> SomePartIs(Split(key, ','), fileExt)
  {
    var parts := Split(key, ',');
    CleanedHas(parts, fileExt);
    fileExt in Cleaned(parts)
  }

  /** An extension is among the cleaned parts exactly when some part cleans to it. */
  lemma CleanedHas(parts: seq<string>, fileExt: string)
    ensures fileExt in Cleaned(parts) <==> SomePartIs(parts, fileExt)
  {
    var exts := Cleaned(parts);
    if fileExt in exts {
      var i :| 0 <= i < |exts| && exts[i] == fileExt;
      assert ToLower(Trim(parts[i])) == fileExt;
    }
    if SomePartIs(parts, fileExt) {
      var i :| 0 <= i < |parts| && ToLower(Trim(parts[i])) == fileExt;
      assert exts[i] == fileExt;
    }
  }

  /** A key written as items joined by commas matches each of its items, however they are cased or padded. */
  lemma KeyOfItemsMatches(items: seq<string>, k: nat, fileExt: string)
    requires |items| >= 1 && k < |items|
    requires forall i :: 0 <= i < |items| ==> ',' !in items[i]
    requires ToLower(Trim(items[k])) == fileExt
    ensures KeyMatches(Join(items, ','), fileExt)
  {
    SplitJoin(items, ',');
    assert KeyExtensions(Join(items, ','))[k] == fileExt;
  }

  /** A key written as items joined by commas lists exactly those items, trimmed and lower-cased, in order. */
  lemma KeyOfItems(items: seq<string>)
    requires |items| >= 1
    requires forall i :: 0 <= i < |items| ==> ',' !in items[i]
    ensures var exts := KeyExtensions(Join(items, ','));
            |exts| == |items| && forall i :: 0 <= i < |items| ==> exts[i] == ToLower(Trim(items[i]))
  {
    SplitJoin(items, ',');
  }

  /** Such a key matches no extension other than its items, trimmed and lower-cased. */
  lemma KeyMatchesOnlyItems(items: seq<string>, fileExt: string)
    requires |items| >= 1
    requires forall i :: 0 <= i < |items| ==> ',' !in items[i]
    requires KeyMatches(Join(items, ','), fileExt)
    ensures exists k :: 0 <= k < |items| && ToLower(Trim(items[k])) == fileExt
  {
    SplitJoin(items, ',');
    assert SomePartIs(items, fileExt);
  }

  // ---------------------------------------------------------------------
  // First-match searches

  /** The value of the first entry whose key satisfies `matches`: a `for…of` with early `return`. */
  function FirstMatch<K, V>(entries: seq<(K, V)>, matches: K -> bool): (r: Option<V>)
    ensures r.None? <==> forall i :: 0 <= i < |entries| ==> !matches(entries[i].0)
    ensures r.Some? ==> exists k :: 0 <= k < |entries| && matches(entries[k].0) && r.value == entries[k].1 &&
                          forall j :: 0 <= j < k ==> !matches(entries[j].0)
  {
    if entries == [] then None
    else if matches(entries[0].0) then Some(entries[0].1)
    else
      var r := FirstMatch(entries[1..], matches);
      assert forall i :: 1 <= i < |entries| ==> entries[i] == entries[1..][i - 1];
      r
  }

  /** The first entry that matches wins: no entry after it is consulted. */
  lemma {:induction false} FirstMatchIsFirst<K, V>(entries: seq<(K, V)>, matches: K -> bool, k: nat)
    requires k < |entries| && matches(entries[k].0)
    requires forall j :: 0 <= j < k ==> !matches(entries[j].0)
    ensures FirstMatch(entries, matches) == Some(entries[k].1)
  {
    if k > 0 {
      assert entries[1..][k - 1] == entries[k];
      forall j | 0 <= j < k - 1 ensures !matches(entries[1..][j].0) {
        assert entries[1..][j] == entries[j + 1];
      }
      FirstMatchIsFirst(entries[1..], matches, k - 1);
    }
  }

  /** Entries appended after a match do not change the result. */
  lemma {:induction false} FirstMatchIgnoresLater<K, V>(entries: seq<(K, V)>, more: seq<(K, V)>, matches: K -> bool)
    requires FirstMatch(entries, matches).Some?
    ensures FirstMatch(entries + more, matches) == FirstMatch(entries, matches)
  {
    assert (entries + more)[0] == entries[0];
    if !matches(entries[0].0) {
      assert (entries + more)[1..] == entries[1..] + more;
      FirstMatchIgnoresLater(entries[1..], more, matches);
    }
  }

  /** The first defined source for which `look` finds something, and what it finds. */
  function FirstFound<M, V>(sources: seq<Option<M>>, look: M -> Option<V>): (r: Option<V>)
    ensures r.None? <==> forall i :: 0 <= i < |sources| && sources[i].Some? ==> look(sources[i].value).None?
  {
    if sources == [] then None
    else if sources[0].Some? && look(sources[0].value).Some? then look(sources[0].value)
    else
      var r := FirstFound(sources[1..], look);
      assert forall i :: 1 <= i < |sources| ==> sources[i] == sources[1..][i - 1];
      r
  }

  /** A source that finds something overrides every later one. */
  lemma {:induction false} FirstFoundIsFirst<M, V>(sources: seq<Option<M>>, look: M -> Option<V>, k: nat)
    requires k < |sources| && sources[k].Some? && look(sources[k].value).Some?
    requires forall j :: 0 <= j < k && sources[j].Some? ==> look(sources[j].value).None?
    ensures FirstFound(sources, look) == look(sources[k].value)
  {
    if k > 0 {
      assert sources[1..][k - 1] == sources[k];
      forall j | 0 <= j < k - 1 && sources[1..][j].Some? ensures look(sources[1..][j].value).None? {
        assert sources[1..][j] == sources[j + 1];
      }
      FirstFoundIsFirst(sources[1..], look, k - 1);
    }
  }

  // ---------------------------------------------------------------------
  // Looking up the records

  /** The header of the first entry of a record whose key lists `fileExt`. */
  function LookupExtension(entries: HeaderMap, fileExt: string): (r: Option<HeaderValue>)
    ensures r.None? <==> forall i :: 0 <= i < |entries| ==> !KeyMatches(entries[i].0, fileExt)
    ensures r.Some? ==> exists k :: 0 <= k < |entries| && KeyMatches(entries[k].0, fileExt) && r.value == entries[k].1 &&
                          forall j :: 0 <= j < k ==> !KeyMatches(entries[j].0, fileExt)
  {
    FirstMatch(entries, key => KeyMatches(key, fileExt))
  }

  /** A record has an entry for `fileExt` exactly when one of its keys lists it, and the first such key decides. */
  lemma LookupFindsFirst(entries: HeaderMap, fileExt: string, k: nat)
    requires k < |entries| && KeyMatches(entries[k].0, fileExt)
    requires forall j :: 0 <= j < k ==> !KeyMatches(entries[j].0, fileExt)
    ensures LookupExtension(entries, fileExt) == Some(entries[k].1)
  {
    FirstMatchIsFirst(entries, key => KeyMatches(key, fileExt), k);
  }

  /** Without a key listing `fileExt` the record has no entry for it. */
  lemma LookupMisses(entries: HeaderMap, fileExt: string)
    requires forall i :: 0 <= i < |entries| ==> !KeyMatches(entries[i].0, fileExt)
    ensures LookupExtension(entries, fileExt).None?
  {
    var matches := key => KeyMatches(key, fileExt);
    assert forall i :: 0 <= i < |entries| ==> !matches(entries[i].0);
  }

  /** The user levels in the order they are consulted: workspace folder, workspace, global. */
  function UserLevels<T>(it: Inspected<T>): (levels: seq<Option<T>>)
    ensures |levels| == 3
  {
    [it.workspaceFolderValue, it.workspaceValue, it.globalValue]
  }

  /** Step 1: the entry for `fileExt` in the first user record, in level order, that has one. */
  function LookupSources(sources: seq<Option<HeaderMap>>, fileExt: string): (r: Option<HeaderValue>)
  {
    FirstFound(sources, entries => LookupExtension(entries, fileExt))
  }

  // ---------------------------------------------------------------------
  // `resolveCopyrightHeader`

  /** `workspaceFolderValue ?? workspaceValue ?? globalValue` */
  function FirstDefined<T>(it: Inspected<T>): (r: Option<T>)
    ensures r.None? <==> it.workspaceFolderValue.None? && it.workspaceValue.None? && it.globalValue.None?
  {
    if it.workspaceFolderValue.Some? then it.workspaceFolderValue
    else if it.workspaceValue.Some? then it.workspaceValue
    else it.globalValue
  }

  /** `''` or an empty array. */
  predicate IsEmptyHeader(v: HeaderValue) {
    v == Text("") || v == Lines([])
  }

  /**
   * The header for a file with extension `fileExt`: a user record entry,
   * else the first defined user `headerText` unless it is empty, else a
   * default record entry, else the default `headerText`.
   */
  function ResolveCopyrightHeader(settings: Settings, fileExt: string): (r: Option<HeaderValue>)
    ensures r.None? ==> settings.headerText.defaultValue.None?
  {
    var eh, ht := settings.extensionHeaders, settings.headerText;
    var userEntry := LookupSources(UserLevels(eh), fileExt);
    if userEntry.Some? then userEntry
    else
      var userText := FirstDefined(ht);
      if userText.Some? && !IsEmptyHeader(userText.value) then userText
      else
        var defaultEntry := if eh.defaultValue.Some? then LookupExtension(eh.defaultValue.value, fileExt) else None;
        if defaultEntry.Some? then defaultEntry
        else ht.defaultValue
  }

  /** Level 1: a user record that lists `fileExt` decides, at the highest level that has one. */
  lemma UserEntryWins(settings: Settings, fileExt: string, k: nat)
    requires var levels := UserLevels(settings.extensionHeaders);
             && k < 3 && levels[k].Some? && LookupExtension(levels[k].value, fileExt).Some?
             && forall j :: 0 <= j < k && levels[j].Some? ==> LookupExtension(levels[j].value, fileExt).None?
    ensures ResolveCopyrightHeader(settings, fileExt) ==
            LookupExtension(UserLevels(settings.extensionHeaders)[k].value, fileExt)
  {
    FirstFoundIsFirst(UserLevels(settings.extensionHeaders), entries => LookupExtension(entries, fileExt), k);
  }

  /** No user record lists `fileExt`. */
  predicate NoUserEntry(settings: Settings, fileExt: string) {
    forall i :: 0 <= i < 3 && UserLevels(settings.extensionHeaders)[i].Some? ==>
      LookupExtension(UserLevels(settings.extensionHeaders)[i].value, fileExt).None?
  }

  /** Level 2: otherwise the first defined user `headerText` is used when it is not empty. */
  lemma UserTextNext(settings: Settings, fileExt: string)
    requires NoUserEntry(settings, fileExt)
    requires var t := FirstDefined(settings.headerText); t.Some? && !IsEmptyHeader(t.value)
    ensures ResolveCopyrightHeader(settings, fileExt) == FirstDefined(settings.headerText)
  {
  }

  /**
   * A defined but empty user `headerText` hides the lower user levels: even
   * a non-empty global value is skipped, and the defaults decide.
   */
  lemma EmptyUserTextSkipsLowerLevels(settings: Settings, fileExt: string)
    requires NoUserEntry(settings, fileExt)
    requires settings.headerText.workspaceFolderValue == Some(Text(""))
    ensures ResolveCopyrightHeader(settings, fileExt) == DefaultHeader(settings, fileExt)
  {
  }

  /** Levels 3 and 4: the default record's entry for `fileExt`, else the default `headerText`. */
  function DefaultHeader(settings: Settings, fileExt: string): (r: Option<HeaderValue>)
    ensures r.None? ==> settings.headerText.defaultValue.None?
    ensures var d := settings.extensionHeaders.defaultValue;
            d.Some? && LookupExtension(d.value, fileExt).Some? ==> r == LookupExtension(d.value, fileExt)
    ensures var d := settings.extensionHeaders.defaultValue;
            (d.None? || LookupExtension(d.value, fileExt).None?) ==> r == settings.headerText.defaultValue
  {
    var d := settings.extensionHeaders.defaultValue;
    var entry := if d.Some? then LookupExtension(d.value, fileExt) else None;
    if entry.Some? then entry else settings.headerText.defaultValue
  }

  /** Without a usable user setting, the defaults decide. */
  lemma DefaultsLast(settings: Settings, fileExt: string)
    requires NoUserEntry(settings, fileExt)
    requires var t := FirstDefined(settings.headerText); t.None? || IsEmptyHeader(t.value)
    ensures ResolveCopyrightHeader(settings, fileExt) == DefaultHeader(settings, fileExt)
  {
  }

  /** Level 3: with no usable user setting, a default record that lists `fileExt` supplies its first listing entry. */
  lemma DefaultEntryNext(settings: Settings, fileExt: string)
    requires NoUserEntry(settings, fileExt)
    requires var t := FirstDefined(settings.headerText); t.None? || IsEmptyHeader(t.value)
    requires var d := settings.extensionHeaders.defaultValue;
             d.Some? && LookupExtension(d.value, fileExt).Some?
    ensures ResolveCopyrightHeader(settings, fileExt) ==
            LookupExtension(settings.extensionHeaders.defaultValue.value, fileExt)
  {
    DefaultsLast(settings, fileExt);
  }

  /** Level 4: with nothing above it, the default `headerText` is the header, or there is none. */
  lemma DefaultTextLast(settings: Settings, fileExt: string)
    requires NoUserEntry(settings, fileExt)
    requires var t := FirstDefined(settings.headerText); t.None? || IsEmptyHeader(t.value)
    requires var d := settings.extensionHeaders.defaultValue;
             d.None? || LookupExtension(d.value, fileExt).None?
    ensures ResolveCopyrightHeader(settings, fileExt) == settings.headerText.defaultValue
  {
    DefaultsLast(settings, fileExt);
  }

  // ---------------------------------------------------------------------
  // The header text and the save filter

  /** `Array.isArray(v) ? v.join('\n') : (v || '')` */
  function JoinHeader(v: Option<HeaderValue>): (text: string)
    ensures v.None? ==> text == ""
  {
    match v
    case None => ""
    case Some(Text(s)) => s
    case Some(Lines(lines)) => if lines == [] then "" else Join(lines, '\n')
  }

  /** Lines joined into the header split back into the same lines. */
  lemma JoinHeaderLines(lines: seq<string>)
    requires |lines| >= 1 && forall i :: 0 <= i < |lines| ==> '\n' !in lines[i]
    ensures Split(JoinHeader(Some(Lines(lines))), '\n') == lines
  {
    SplitJoin(lines, '\n');
  }

  /** A header given as one line and as that one string are the same header. */
  lemma OneLineHeader(s: string)
    ensures JoinHeader(Some(Lines([s]))) == JoinHeader(Some(Text(s)))
  {
  }

  /** An empty header, as a string or as lines, joins to no text, so no edit is planned. */
  lemma EmptyHeaderNoText(v: HeaderValue)
    requires IsEmptyHeader(v)
    ensures JoinHeader(Some(v)) == ""
  {
  }

  /** The `fileExtensions` filter: an empty list admits every file, otherwise one entry must equal `fileExt` ignoring case. */
  function ExtensionAdmitted(fileExtensions: seq<string>, fileExt: string): (admitted: bool)
    ensures |fileExtensions| == 0 ==> admitted
    ensures fileExt in fileExtensions && ToLower(fileExt) == fileExt ==> admitted
    ensures admitted && |fileExtensions| > 0 ==> exists e :: e in fileExtensions && ToLower(e) == fileExt
  {
    |fileExtensions| == 0 || exists i :: 0 <= i < |fileExtensions| && ToLower(fileExtensions[i]) == fileExt
  }

  /** An entry naming the file's extension in any ASCII case admits it. */
  lemma AdmittedInAnyCase(fileExtensions: seq<string>, k: nat, stem: string, ext: string)
    requires '.' !in ext && k < |fileExtensions| && ToLower(fileExtensions[k]) == ToLower(ext)
    ensures ExtensionAdmitted(fileExtensions, FileExtension(stem + "." + ext))
  {
    FileExtensionAfterLastDot(stem, ext);
  }

  /** A file without a dot passes a non-empty filter only through an entry that is the empty string. */
  lemma DotlessFileFiltered(fileExtensions: seq<string>, fileName: string)
    requires '.' !in fileName && |fileExtensions| > 0
    ensures ExtensionAdmitted(fileExtensions, FileExtension(fileName)) <==> "" in fileExtensions
  {
    if ExtensionAdmitted(fileExtensions, FileExtension(fileName)) {
      var i :| 0 <= i < |fileExtensions| && ToLower(fileExtensions[i]) == "";
      assert |fileExtensions[i]| == 0;
      assert fileExtensions[i] in fileExtensions;
    }
    if "" in fileExtensions {
      var i :| 0 <= i < |fileExtensions| && fileExtensions[i] == "";
      assert ToLower(fileExtensions[i]) == "";
    }
  }

  /** The save handler goes on only when enabled, with a non-empty header, for an admitted file. */
  predicate ProcessOnSave(enabled: bool, header: string, fileExtensions: seq<string>, fileExt: string) {
    enabled && header != "" && ExtensionAdmitted(fileExtensions, fileExt)
  }

  /** The header handed to the planner for a file name, as both handlers derive it. */
  function HeaderFor(settings: Settings, fileName: string): (header: string)
    ensures ResolveCopyrightHeader(settings, FileExtension(fileName)).None? ==> header == ""
  {
    JoinHeader(ResolveCopyrightHeader(settings, FileExtension(fileName)))
  }
}
