/**
 * The localized message catalogue of vcpkg.
 *
 * Every message is registered at start-up with a name, a default (English)
 * format string and a comment for translators; the table is a structure of
 * parallel columns indexed by the value registration returns. Initialization
 * happens once: it sizes the column of localized strings and refuses duplicate
 * names. A locale file then fills in translations, and a lookup prefers the
 * translation and falls back to the default when there is none.
 *
 * Fatal exits of the program (`Checks::exit_fail`, `abort`, a failed
 * `Checks::check_exit`) are modelled as outcome values: `None` for a failed
 * bounds check, a dedicated constructor for the others.
 */
module Messages {
  import opened Wrappers

  /** Largest count one `WriteFile`/`WriteConsoleW` call accepts (a Windows DWORD). */
  const MaxDword: nat := 0xFFFF_FFFF

  /** Largest value of `size_t` on a 64-bit target. */
  const SizeMax: nat := 0xFFFF_FFFF_FFFF_FFFF

  /** Clamps a byte count to the largest amount a single write call can take. */
  function SizeToWrite(size: nat): (r: nat)
    requires size <= SizeMax
    ensures r <= MaxDword && r <= size
    ensures r == size || r == MaxDword
    ensures size <= MaxDword ==> r == size
    ensures size > 0 ==> r > 0
  {
    if size > MaxDword then MaxDword else size
  }

  /**
   * The counts passed to successive write calls by the write loop when each
   * call writes all that it was asked to.
   */
  function WriteChunks(size: nat): seq<nat>
    requires size <= SizeMax
    decreases size
  {
    if size == 0 then [] else [SizeToWrite(size)] + WriteChunks(size - SizeToWrite(size))
  }

  function Sum(s: seq<nat>): nat
  {
    if s == [] then 0 else s[0] + Sum(s[1..])
  }

  /** Clamping never loses bytes: the chunks are all positive, fit a DWORD, and add up to the size. */
  lemma {:induction false} WriteChunksCover(size: nat)
    requires size <= SizeMax
    ensures Sum(WriteChunks(size)) == size
    ensures forall k :: 0 <= k < |WriteChunks(size)| ==> 0 < WriteChunks(size)[k] <= MaxDword
    decreases size
  {
    if size > 0 {
      var n := SizeToWrite(size);
      WriteChunksCover(size - n);
      assert WriteChunks(size)[1..] == WriteChunks(size - n);
    }
  }

  /** Name of the locale file for a language tag. */
  function LocaleFileName(language: string): (r: string)
    ensures |r| == |language| + 14
    ensures r[..9] == "messages." && r[|r| - 5..] == ".json"
    ensures r[9..|r| - 5] == language
  {
    "messages." + language + ".json"
  }

  /** The language a locale file name stands for, if it has the locale-file shape. */
  function LocaleLanguage(fileName: string): Option<string>
  {
    if |fileName| >= 14 && fileName[..9] == "messages." && fileName[|fileName| - 5..] == ".json"
    then Some(fileName[9..|fileName| - 5])
    else None
  }

  /** A locale file name determines its language, and every such name is produced by LocaleFileName. */
  lemma LocaleFileNameRoundTrip(language: string, fileName: string)
    ensures LocaleLanguage(LocaleFileName(language)) == Some(language)
    ensures LocaleLanguage(fileName) == Some(language) ==> LocaleFileName(language) == fileName
  {
    if LocaleLanguage(fileName) == Some(language) {
      var f := fileName;
      assert f == f[..9] + f[9..|f| - 5] + f[|f| - 5..];
    }
  }

  /** `std::vector::resize` on strings: keeps the first `n` entries, pads with empty strings. */
  function Resize(s: seq<string>, n: nat): (r: seq<string>)
    ensures |r| == n
    ensures forall k :: 0 <= k < n ==> r[k] == (if k < |s| then s[k] else "")
  {
    if n <= |s| then s[..n] else s + seq(n - |s|, _ => "")
  }

  /** The set the initialization builds from the names (`std::set` of the names column). */
  function NameSet(names: seq<string>): set<string>
  {
    set x | x in names
  }

  /** The set of names is smaller than the column exactly when some name occurs twice. */
  lemma {:induction false} NameSetCardinality(names: seq<string>)
    ensures |NameSet(names)| <= |names|
    ensures |NameSet(names)| == |names| <==> Distinct(names)
  {
    if names != [] {
      var init, last := names[..|names| - 1], names[|names| - 1];
      NameSetCardinality(init);
      assert names == init + [last];
      assert NameSet(names) == NameSet(init) + {last};
      if last in NameSet(init) {
        assert NameSet(names) == NameSet(init);
        var i :| 0 <= i < |init| && init[i] == last;
        assert names[i] == names[|names| - 1];
      } else {
        assert |NameSet(names)| == |NameSet(init)| + 1;
        if Distinct(init) {
          forall i, j | 0 <= i < j < |names| ensures names[i] != names[j] {
            if j < |names| - 1 {
              assert names[i] == init[i] && names[j] == init[j];
            } else {
              assert names[i] == init[i] && init[i] in NameSet(init);
            }
          }
        } else {
          var i, j :| 0 <= i < j < |init| && init[i] == init[j];
          assert names[i] == names[j];
        }
      }
    }
  }

  /**
   * `(first, second)` is the pair the initialization's quadratic scan stops
   * at: the smallest `first` whose name occurs again later, and the first
   * later index `second` holding that name.
   */
  ghost predicate IsFirstDuplicate(names: seq<string>, first: nat, second: nat)
  {
    && first < second < |names|
    && names[first] == names[second]
    && (forall i, j :: 0 <= i < first && i < j < |names| ==> names[i] != names[j])
    && (forall j :: first < j < second ==> names[first] != names[j])
  }

  /** The nested scan for a repeated message name. */
  method FindFirstDuplicate(names: seq<string>) returns (dup: Option<(nat, nat)>)
    ensures dup.None? <==> Distinct(names)
    ensures dup.Some? ==> IsFirstDuplicate(names, dup.value.0, dup.value.1)
  {
    // The source bounds the outer loop by `names.size() - 1` in unsigned
    // arithmetic; the scan only runs on a column with a duplicate, so it is
    // never empty there, and `i + 1 < |names|` is the same bound.
    var i := 0;
    while i + 1 < |names|
      invariant i <= |names|
      invariant forall i', j :: 0 <= i' < i && i' < j < |names| ==> names[i'] != names[j]
    {
      var j := i + 1;
      while j < |names|
        invariant i < j <= |names|
        invariant forall j' :: i < j' < j ==> names[i] != names[j']
      {
        if names[i] == names[j] {
          return Some((i, j));
        }
        j := j + 1;
      }
      i := i + 1;
    }
    return None;
  }

  /** A value of the locale file: the translations must be JSON strings. */
  datatype LocaleEntry = JsonString(text: string) | JsonNonString

  /** What a parsed locale file turned out to be. */
  datatype LocaleDocument = Unparsable | NonObject | Object(members: map<string, LocaleEntry>)

  datatype InitOutcome =
    | Initialized
      /** "double-initialized message context": fatal */
    | DoubleInitialized
      /** a message name was registered twice: the process aborts */
    | DuplicateMessage(first: nat, second: nat)

  datatype LoadOutcome =
    | Loaded(unlocalized: seq<string>)
      /** the translation of the message at `index` is not a string: fatal */
    | NonStringEntry(index: nat)

  datatype StartupOutcome =
    | Started(unlocalized: seq<string>)
    | InitFailed(init: InitOutcome)
    | LocaleFileUnparsable(fileName: string)
    | LocaleFileNotObject(fileName: string)
    | LocaleEntryNotString(index: nat)

  /** The translation a locale map gives a name, or `current` when it gives none. */
  function Overlaid(current: string, name: string, messageMap: map<string, LocaleEntry>): string
  {
    if name in messageMap && messageMap[name].JsonString? then messageMap[name].text else current
  }

  /**
   * What a lookup yields once a locale map is loaded: the name's translation
   * when the map has a non-empty one, else the default format string.
   */
  function FormatStringFor(defaultString: string, name: string, messageMap: map<string, LocaleEntry>): string
  {
    if name in messageMap && messageMap[name].JsonString? && messageMap[name].text != "" then messageMap[name].text
    else defaultString
  }

  /** The localized column after the entries of the first `n` names have been overlaid on `current`. */
  function OverlaidPrefix(current: seq<string>, names: seq<string>, messageMap: map<string, LocaleEntry>, n: nat): seq<string>
    requires |current| == |names|
  {
    seq(|names|, k requires 0 <= k < |names| => if k < n then Overlaid(current[k], names[k], messageMap) else current[k])
  }

  /** The names, in order, that a locale map has no entry for. */
  function Unlocalized(names: seq<string>, messageMap: map<string, LocaleEntry>): (r: seq<string>)
    ensures |r| <= |names|
  {
    if names == [] then []
    else
      var init, last := names[..|names| - 1], names[|names| - 1];
      if last in messageMap then Unlocalized(init, messageMap) else Unlocalized(init, messageMap) + [last]
  }

  /** The debugging list holds exactly the names the locale map lacks, at most one per name. */
  lemma {:induction false} UnlocalizedMembers(names: seq<string>, messageMap: map<string, LocaleEntry>)
    ensures |Unlocalized(names, messageMap)| <= |names|
    ensures forall x :: x in Unlocalized(names, messageMap) <==> x in names && x !in messageMap
  {
    if names != [] {
      var init := names[..|names| - 1];
      UnlocalizedMembers(init, messageMap);
      assert names == init + [names[|names| - 1]];
    }
  }

  /** Once the names are known to be distinct, the debugging list names each message at most once. */
  lemma {:induction false} UnlocalizedDistinct(names: seq<string>, messageMap: map<string, LocaleEntry>)
    requires Distinct(names)
    ensures Distinct(Unlocalized(names, messageMap))
  {
    if names != [] {
      var init, last := names[..|names| - 1], names[|names| - 1];
      assert names == init + [last];
      forall i, j | 0 <= i < j < |init| ensures init[i] != init[j] {
        assert init[i] == names[i] && init[j] == names[j];
      }
      forall i | 0 <= i < |init| ensures init[i] != last {
        assert init[i] == names[i];
      }
      UnlocalizedDistinct(init, messageMap);
      UnlocalizedMembers(init, messageMap);
    }
  }


  /**
   * The process-wide message table. Row `k` of the table is
   * `(names[k], defaultStrings[k], localizationComments[k], localizedStrings[k])`;
   * the localized column exists only once the context is initialized.
   */
  class MessageContext {
    var names: seq<string>
    var defaultStrings: seq<string>
    var localizationComments: seq<string>
    var initialized: bool
    var localizedStrings: seq<string>

    /** The registered columns are parallel; nothing is localized before initialization. */
    ghost predicate Valid()
      reads this
    {
      && |names| == |defaultStrings| == |localizationComments|
      && (!initialized ==> localizedStrings == [])
    }

    constructor ()
      ensures Valid()
      ensures names == [] && defaultStrings == [] && localizationComments == []
      ensures !initialized && localizedStrings == []
    {
      names, defaultStrings, localizationComments := [], [], [];
      initialized, localizedStrings := false, [];
    }

    /** Appends a row and returns its index. */
    method Register(name: string, formatString: string, comment: string) returns (index: nat)
      requires Valid()
      modifies this
      ensures Valid()
      ensures index == |old(names)|
      ensures names == old(names) + [name]
      ensures defaultStrings == old(defaultStrings) + [formatString]
      ensures localizationComments == old(localizationComments) + [comment]
      ensures initialized == old(initialized) && localizedStrings == old(localizedStrings)
      ensures GetMessageName(index) == Some(name)
      ensures GetDefaultFormatString(index) == Some(formatString)
      ensures GetLocalizationComment(index) == Some(comment)
    {
      index := |names|;
      names := names + [name];
      defaultStrings := defaultStrings + [formatString];
      localizationComments := localizationComments + [comment];
    }

    /**
     * One-shot initialization: a second call is fatal; the first sizes the
     * localized column to the number of messages (all empty) and then aborts
     * if any name was registered twice.
     */
    method Initialize() returns (outcome: InitOutcome)
      requires Valid()
      modifies this
      ensures Valid() && initialized
      ensures names == old(names) && defaultStrings == old(defaultStrings)
      ensures localizationComments == old(localizationComments)
      ensures old(initialized) ==> outcome == DoubleInitialized && localizedStrings == old(localizedStrings)
      ensures !old(initialized) ==>
        && outcome != DoubleInitialized
        && |localizedStrings| == |names|
        && (forall k :: 0 <= k < |names| ==> localizedStrings[k] == "")
        && (forall k :: 0 <= k < |names| ==> GetFormatString(k) == Some(defaultStrings[k]))
      ensures !old(initialized) ==> (outcome == Initialized <==> Distinct(names))
      ensures outcome.DuplicateMessage? ==> IsFirstDuplicate(names, outcome.first, outcome.second)
    {
      if initialized {
        return DoubleInitialized;
      }
      localizedStrings := Resize(localizedStrings, |names|);
      initialized := true;

      NameSetCardinality(names);
      if |NameSet(names)| < |names| {
        var dup := FindFirstDuplicate(names);
        if dup.None? {
          assert false;
        }
        return DuplicateMessage(dup.value.0, dup.value.1);
      }
      return Initialized;
    }

    /**
     * Overwrites the translation of every message whose name is a key of the
     * locale map, in index order; reports (when debugging) the names left
     * without a translation.
     */
    method LoadFromMessageMap(messageMap: map<string, LocaleEntry>, debugging: bool) returns (outcome: LoadOutcome)
      requires Valid() && |localizedStrings| == |names|
      modifies this`localizedStrings
      ensures Valid() && |localizedStrings| == |names|
      ensures outcome.Loaded? ==>
        && (forall k :: 0 <= k < |names| && names[k] in messageMap ==> messageMap[names[k]].JsonString?)
        && (forall k :: 0 <= k < |names| ==> localizedStrings[k] == Overlaid(old(localizedStrings)[k], names[k], messageMap))
        && outcome.unlocalized == (if debugging then Unlocalized(names, messageMap) else [])
      ensures outcome.NonStringEntry? ==>
        && outcome.index < |names|
        && names[outcome.index] in messageMap && messageMap[names[outcome.index]].JsonNonString?
        && (forall k :: 0 <= k < outcome.index && names[k] in messageMap ==> messageMap[names[k]].JsonString?)
        && (forall k :: 0 <= k < |names| ==>
              localizedStrings[k] == if k < outcome.index then Overlaid(old(localizedStrings)[k], names[k], messageMap)
                                     else old(localizedStrings)[k])
    {
      var unlocalized := [];
      for index := 0 to |names|
        invariant |localizedStrings| == |names|
        invariant forall k :: 0 <= k < index && names[k] in messageMap ==> messageMap[names[k]].JsonString?
        invariant localizedStrings == OverlaidPrefix(old(localizedStrings), names, messageMap, index)
        invariant unlocalized == if debugging then Unlocalized(names[..index], messageMap) else []
      {
        var name := names[index];
        assert names[..index + 1] == names[..index] + [name];
        if name in messageMap {
          match messageMap[name]
          case JsonNonString =>
            return NonStringEntry(index);
          case JsonString(text) =>
            localizedStrings := localizedStrings[index := text];
            assert localizedStrings == OverlaidPrefix(old(localizedStrings), names, messageMap, index + 1);
        } else if debugging {
          unlocalized := unlocalized + [name];
        }
      }
      assert names[..|names|] == names;
      return Loaded(unlocalized);
    }

    /**
     * Start-up with a locale: initialize, read `messages.<language>.json`
     * (through `readLocaleFile`, which stands for reading and parsing the file
     * under the locale directory), require a JSON object, and load it.
     */
    method InitializeWithLocale(language: string, readLocaleFile: string -> LocaleDocument, debugging: bool)
      returns (outcome: StartupOutcome)
      requires Valid()
      modifies this
      ensures Valid() && initialized
      ensures names == old(names) && defaultStrings == old(defaultStrings)
      ensures localizationComments == old(localizationComments)
      ensures old(initialized) ==> outcome == InitFailed(DoubleInitialized)
      ensures outcome.Started? ==>
        && !old(initialized) && Distinct(names)
        && readLocaleFile(LocaleFileName(language)).Object?
        && |localizedStrings| == |names|
        && (forall k :: 0 <= k < |names| ==>
              localizedStrings[k] == Overlaid("", names[k], readLocaleFile(LocaleFileName(language)).members))
      ensures outcome.Started? ==>
        forall k :: 0 <= k < |names| ==>
          GetFormatString(k) == Some(FormatStringFor(defaultStrings[k], names[k], readLocaleFile(LocaleFileName(language)).members))
      ensures outcome.LocaleFileUnparsable? || outcome.LocaleFileNotObject? ==>
        outcome.fileName == LocaleFileName(language)
      ensures !old(initialized) && !Distinct(names) ==> outcome.InitFailed? && outcome.init.DuplicateMessage?
      ensures !old(initialized) && Distinct(names) && readLocaleFile(LocaleFileName(language)).Unparsable? ==>
        outcome == LocaleFileUnparsable(LocaleFileName(language))
      ensures !old(initialized) && Distinct(names) && readLocaleFile(LocaleFileName(language)).NonObject? ==>
        outcome == LocaleFileNotObject(LocaleFileName(language))
      ensures !old(initialized) && Distinct(names) && readLocaleFile(LocaleFileName(language)).Object? ==>
        var m := readLocaleFile(LocaleFileName(language)).members;
        && (outcome.Started? || outcome.LocaleEntryNotString?)
        && (outcome.Started? <==> forall k :: 0 <= k < |names| && names[k] in m ==> m[names[k]].JsonString?)
      ensures outcome.Started? ==>
        outcome.unlocalized == if debugging then Unlocalized(names, readLocaleFile(LocaleFileName(language)).members) else []
      ensures outcome.LocaleEntryNotString? ==>
        && readLocaleFile(LocaleFileName(language)).Object?
        && outcome.index < |names|
        && names[outcome.index] in readLocaleFile(LocaleFileName(language)).members
        && readLocaleFile(LocaleFileName(language)).members[names[outcome.index]].JsonNonString?
    {
      var init := Initialize();
      if init != Initialized {
        return InitFailed(init);
      }
      var fileName := LocaleFileName(language);
      match readLocaleFile(fileName)
      case Unparsable =>
        return LocaleFileUnparsable(fileName);
      case NonObject =>
        return LocaleFileNotObject(fileName);
      case Object(members) =>
        var loaded := LoadFromMessageMap(members, debugging);
        match loaded
        case NonStringEntry(index) =>
          return LocaleEntryNotString(index);
        case Loaded(unlocalized) =>
          return Started(unlocalized);
    }

    /** The translation when there is one, else the default format string; `None` when a bounds check fails. */
    function GetFormatString(index: nat): (r: Option<string>)
      reads this
      ensures r.Some? <==> |localizedStrings| == |defaultStrings| && index < |defaultStrings|
      ensures r.Some? && localizedStrings[index] != "" ==> r.value == localizedStrings[index]
      ensures r.Some? && localizedStrings[index] == "" ==> r.value == defaultStrings[index]
    {
      if |localizedStrings| != |defaultStrings| || index >= |defaultStrings| then None
      else if localizedStrings[index] == "" then Some(defaultStrings[index])
      else Some(localizedStrings[index])
    }

    function GetMessageName(index: nat): (r: Option<string>)
      reads this
      ensures r.Some? <==> index < |names|
      ensures r.Some? ==> r.value == names[index]
    {
      if index < |names| then Some(names[index]) else None
    }

    function GetDefaultFormatString(index: nat): (r: Option<string>)
      reads this
      ensures r.Some? <==> index < |defaultStrings|
      ensures r.Some? ==> r.value == defaultStrings[index]
    {
      if index < |defaultStrings| then Some(defaultStrings[index]) else None
    }

    function GetLocalizationComment(index: nat): (r: Option<string>)
      reads this
      ensures r.Some? <==> index < |localizationComments|
      ensures r.Some? ==> r.value == localizationComments[index]
    {
      if index < |localizationComments| then Some(localizationComments[index]) else None
    }
  }
}
