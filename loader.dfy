/**
 * Loading the catalog (script.js): resolving a category name or alias,
 * the category token of a file name, injecting the category into every
 * record of a file (or skipping the file), and the master data as the
 * concatenation of the loaded files sorted by Name.
 */
module Loader {
  import opened Wrappers
  import opened SeqUtil
  import opened JsString
  import opened Records
  import opened Sorting

  /** An entry of the allowed-categories list; a missing alias list is an empty one. */
  datatype Category = Category(name: string, aliases: seq<string>)

  /** The category's name or one of its aliases equals s, ignoring case. */
  predicate CategoryMatches(c: Category, s: string) {
    ToLower(c.name) == ToLower(s) || exists a :: a in c.aliases && ToLower(a) == ToLower(s)
  }

  /** `allowedCategories.find(...)`, giving the canonical name. */
  function FirstMatch(cats: seq<Category>, s: string): Option<string> {
    if cats == [] then None
    else if CategoryMatches(cats[0], s) then Some(cats[0].name)
    else FirstMatch(cats[1..], s)
  }

  /** `findCategory`: nothing for the empty string, else the name of the first category that matches. */
  function FindCategory(cats: seq<Category>, s: string): Option<string> {
    if s == "" then None else FirstMatch(cats, s)
  }

  lemma {:induction false} FirstMatchSpec(cats: seq<Category>, s: string)
    ensures FirstMatch(cats, s).Some? <==> exists i :: 0 <= i < |cats| && CategoryMatches(cats[i], s)
    ensures FirstMatch(cats, s).Some? ==>
      exists i :: 0 <= i < |cats| && CategoryMatches(cats[i], s) && FirstMatch(cats, s).value == cats[i].name
                  && forall j :: 0 <= j < i ==> !CategoryMatches(cats[j], s)
  {
    if cats != [] && !CategoryMatches(cats[0], s) {
      FirstMatchSpec(cats[1..], s);
      if FirstMatch(cats, s).Some? {
        var i :| 0 <= i < |cats[1..]| && CategoryMatches(cats[1..][i], s) && FirstMatch(cats, s).value == cats[1..][i].name
                 && forall j :: 0 <= j < i ==> !CategoryMatches(cats[1..][j], s);
        assert cats[i + 1] == cats[1..][i];
        forall j | 0 <= j < i + 1 ensures !CategoryMatches(cats[j], s) {
          if j > 0 {
            assert cats[j] == cats[1..][j - 1];
          }
        }
      }
      if exists i :: 0 <= i < |cats| && CategoryMatches(cats[i], s) {
        var i :| 0 <= i < |cats| && CategoryMatches(cats[i], s);
        assert cats[1..][i - 1] == cats[i];
      }
    }
  }

  /**
   * A category string resolves iff it is non-empty and matches some
   * category, and then to the name of the first category that matches.
   */
  lemma FindCategorySpec(cats: seq<Category>, s: string)
    ensures FindCategory(cats, s).Some? <==> s != "" && exists i :: 0 <= i < |cats| && CategoryMatches(cats[i], s)
    ensures FindCategory(cats, s).Some? ==>
      exists i :: 0 <= i < |cats| && CategoryMatches(cats[i], s) && FindCategory(cats, s).value == cats[i].name
                  && forall j :: 0 <= j < i ==> !CategoryMatches(cats[j], s)
  {
    FirstMatchSpec(cats, s);
  }

  /** Resolution ignores the case of the category string. */
  lemma {:induction false} FindCategoryIgnoresCase(cats: seq<Category>, s: string)
    ensures FindCategory(cats, ToLower(s)) == FindCategory(cats, s)
  {
    ToLowerIdempotent(s);
    FirstMatchIgnoresCase(cats, s);
  }

  lemma {:induction false} FirstMatchIgnoresCase(cats: seq<Category>, s: string)
    requires ToLower(ToLower(s)) == ToLower(s)
    ensures FirstMatch(cats, ToLower(s)) == FirstMatch(cats, s)
  {
    if cats != [] {
      assert CategoryMatches(cats[0], ToLower(s)) == CategoryMatches(cats[0], s);
      FirstMatchIgnoresCase(cats[1..], s);
    }
  }

  // ---------------------------------------------------------------------
  // The category token of a file name (script.js:129-131, 184-186)
  // ---------------------------------------------------------------------

  /** `(name.match(/\./g) || []).length`. */
  function DotCount(s: string): nat {
    if s == [] then 0 else (if s[0] == '.' then 1 else 0) + DotCount(s[1..])
  }

  /** The characters `.` in a regular expression does not match. */
  predicate IsLineTerminator(c: char) {
    c == '\n' || c == '\r' || c == '\U{2028}' || c == '\U{2029}'
  }

  /** The name ends with `.json`, ignoring case (the `i` flag folds only ASCII letters here). */
  predicate EndsWithJsonCI(name: string) {
    |name| >= 5 && ToLower(name[|name| - 5..]) == ".json"
  }

  /** The part of s after its last dot. */
  function AfterLastDot(s: string): (r: string)
    requires '.' in s
    ensures |r| < |s| && r == s[|s| - |r|..] && s[|s| - |r| - 1] == '.' && '.' !in r
  {
    if s[|s| - 1] == '.' then ""
    else
      assert s == s[..|s| - 1] + [s[|s| - 1]];
      assert '.' in s[..|s| - 1];
      AfterLastDot(s[..|s| - 1]) + [s[|s| - 1]]
  }

  /**
   * `name.match(/^.*\.(.*?)\.json$/i)`, else `name.replace(/\.json$/i, '')`:
   * the segment between the last dot of the stem and `.json` when the
   * pattern matches, otherwise the name without a final `.json`.
   */
  function CategoryToken(name: string): string {
    if EndsWithJsonCI(name) then
      var stem := name[..|name| - 5];
      if '.' in stem && forall k :: 0 <= k < |name| ==> !IsLineTerminator(name[k]) then AfterLastDot(stem) else stem
    else name
  }

  /** The token of `<prefix>.<token>.json` is the token, whatever dots the prefix holds. */
  lemma CategoryTokenOf(prefix: string, token: string)
    requires '.' !in token
    requires forall k :: 0 <= k < |prefix| ==> !IsLineTerminator(prefix[k])
    requires forall k :: 0 <= k < |token| ==> !IsLineTerminator(token[k])
    ensures CategoryToken(prefix + "." + token + ".json") == token
  {
    var name := prefix + "." + token + ".json";
    var stem := prefix + "." + token;
    assert name[..|name| - 5] == stem && name[|name| - 5..] == ".json";
    assert stem[|prefix|] == '.';
    forall k | 0 <= k < |name| ensures !IsLineTerminator(name[k]) {
      if k < |prefix| {
        assert name[k] == prefix[k];
      } else if |prefix| < k < |prefix| + 1 + |token| {
        assert name[k] == token[k - |prefix| - 1];
      }
    }
    var r := AfterLastDot(stem);
    assert r == stem[|stem| - |token|..] == token;
  }

  // ---------------------------------------------------------------------
  // One file (script.js:124-140, 178-193)
  // ---------------------------------------------------------------------

  /** What `JSON.parse` gave for a file: a syntax error, a value that is not an array, or an array of records. */
  datatype Parsed = Unparsable | NotArray | Array(items: seq<Record>)

  /** `data.map(item => ({ ...item, Category: categoryName }))`. */
  function InjectCategory(items: seq<Record>, cat: string): (r: seq<Record>)
    ensures |r| == |items|
    ensures forall i :: 0 <= i < |r| ==> r[i].Get("Category") == Scalar(cat)
    ensures forall i, k :: 0 <= i < |r| && k != "Category" ==> r[i].Get(k) == items[i].Get(k)
  {
    seq(|items|, i requires 0 <= i < |items| => items[i].Set("Category", Scalar(cat)))
  }

  /** The records a file contributes, or None when it does not parse (which rejects the whole load). */
  function LoadFile(cats: seq<Category>, name: string, data: Parsed): Option<seq<Record>> {
    if data.Unparsable? then None
    else if DotCount(name) >= 2 then
      match FindCategory(cats, CategoryToken(name))
      case Some(cat) =>
        if cat != "" then Some(if data.Array? then InjectCategory(data.items, cat) else [])
        else Some([])
      case None => Some([])
    else Some(if data.Array? then data.items else [])
  }

  /**
   * A parsed file with fewer than two dots in its name passes its array
   * through unchanged; with two or more, an unresolved token (or a
   * category named "") skips the file, and a resolved one gives every
   * record its Category and keeps the others' fields and the count; a
   * value that is not an array gives no records.
   */
  lemma LoadFileSpec(cats: seq<Category>, name: string, data: Parsed)
    ensures data.Unparsable? <==> LoadFile(cats, name, data).None?
    ensures data.NotArray? ==> LoadFile(cats, name, data) == Some([])
    ensures data.Array? && DotCount(name) < 2 ==> LoadFile(cats, name, data) == Some(data.items)
    ensures !data.Unparsable? && DotCount(name) >= 2
            && (FindCategory(cats, CategoryToken(name)).None? || FindCategory(cats, CategoryToken(name)) == Some(""))
            ==> LoadFile(cats, name, data) == Some([])
    ensures data.Array? && DotCount(name) >= 2 && FindCategory(cats, CategoryToken(name)).Some?
            && FindCategory(cats, CategoryToken(name)).value != ""
            ==> var cat, r := FindCategory(cats, CategoryToken(name)).value, LoadFile(cats, name, data).value;
                && |r| == |data.items|
                && (forall i :: 0 <= i < |r| ==> r[i].Get("Category") == Scalar(cat))
                && (forall i, k :: 0 <= i < |r| && k != "Category" ==> r[i].Get(k) == data.items[i].Get(k))
  {
  }

  // ---------------------------------------------------------------------
  // All files (script.js:145-147, 196-198)
  // ---------------------------------------------------------------------

  /** `arrs.flat()`. */
  function Concat(parts: seq<seq<Record>>): seq<Record> {
    if parts == [] then [] else parts[0] + Concat(parts[1..])
  }

  /** The per-file results, or None as soon as one file fails (`Promise.all` rejects). */
  function LoadFiles(cats: seq<Category>, files: seq<(string, Parsed)>): (r: Option<seq<seq<Record>>>)
    ensures r.Some? ==> |r.value| == |files|
  {
    if files == [] then Some([])
    else
      match LoadFile(cats, files[0].0, files[0].1)
      case None => None
      case Some(first) =>
        match LoadFiles(cats, files[1..])
        case None => None
        case Some(rest) => Some([first] + rest)
  }

  /** `String(a.Name ?? '')`. */
  function NameKey(r: Record): string {
    DisplayText(r.Get("Name"))
  }

  /** The comparator of `masterData.sort`. */
  predicate NameLe(a: Record, b: Record) {
    StrLe(NameKey(a), NameKey(b))
  }

  /** The master data: the files' records concatenated, then stably sorted by Name; None when any file fails. */
  function LoadAll(cats: seq<Category>, files: seq<(string, Parsed)>): Option<seq<Record>> {
    match LoadFiles(cats, files)
    case None => None
    case Some(parts) => Some(Sort(Concat(parts), NameLe))
  }

  lemma NameLeIsPreorder()
    ensures Total(NameLe) && Transitive(NameLe)
  {
    forall a, b ensures NameLe(a, b) || NameLe(b, a) {
      StrLeTotal(NameKey(a), NameKey(b));
    }
    forall a, b, c | NameLe(a, b) && NameLe(b, c) ensures NameLe(a, c) {
      StrLeTransitive(NameKey(a), NameKey(b), NameKey(c));
    }
  }

  /** Any file that does not parse aborts the load; otherwise every file contributes. */
  lemma {:induction false} LoadFilesFails(cats: seq<Category>, files: seq<(string, Parsed)>)
    ensures LoadFiles(cats, files).None? <==> exists i :: 0 <= i < |files| && files[i].1.Unparsable?
    ensures LoadFiles(cats, files).Some? ==>
      forall i :: 0 <= i < |files| ==> Some(LoadFiles(cats, files).value[i]) == LoadFile(cats, files[i].0, files[i].1)
  {
    if files != [] {
      LoadFilesFails(cats, files[1..]);
      LoadFileSpec(cats, files[0].0, files[0].1);
      if exists i :: 0 <= i < |files| && files[i].1.Unparsable? {
        var i :| 0 <= i < |files| && files[i].1.Unparsable?;
        if i > 0 {
          assert files[1..][i - 1] == files[i];
        }
      }
      if exists i :: 0 <= i < |files[1..]| && files[1..][i].1.Unparsable? {
        var i :| 0 <= i < |files[1..]| && files[1..][i].1.Unparsable?;
        assert files[i + 1] == files[1..][i];
      }
      if LoadFiles(cats, files).Some? {
        var rest := LoadFiles(cats, files[1..]).value;
        forall i | 0 <= i < |files| ensures Some(LoadFiles(cats, files).value[i]) == LoadFile(cats, files[i].0, files[i].1) {
          if i > 0 {
            assert LoadFiles(cats, files).value[i] == rest[i - 1];
            assert files[1..][i - 1] == files[i];
          }
        }
      }
    }
  }

  /**
   * The master data is the files' records rearranged: sorted by Name,
   * holding each record as often as the files do, and records with the
   * same Name in the order of the files and of each file.
   */
  lemma LoadAllSpec(cats: seq<Category>, files: seq<(string, Parsed)>, z: Record)
    requires LoadAll(cats, files).Some?
    ensures var master, parts := LoadAll(cats, files).value, LoadFiles(cats, files).value;
      && Sorted(master, NameLe)
      && multiset(master) == multiset(Concat(parts))
      && Filter(master, TiedWith(NameLe, z)) == Filter(Concat(parts), TiedWith(NameLe, z))
  {
    var parts := LoadFiles(cats, files).value;
    NameLeIsPreorder();
    SortSorted(Concat(parts), NameLe);
    SortStable(Concat(parts), NameLe, z);
  }

  /** The number of records loaded is the sum over the files. */
  lemma {:induction false} ConcatLength(parts: seq<seq<Record>>)
    ensures |Concat(parts)| == SumLengths(parts)
  {
    if parts != [] {
      ConcatLength(parts[1..]);
    }
  }

  function SumLengths(parts: seq<seq<Record>>): nat {
    if parts == [] then 0 else |parts[0]| + SumLengths(parts[1..])
  }

  // ---------------------------------------------------------------------
  // The remote file listing (script.js:169)
  // ---------------------------------------------------------------------

  /** An entry of the repository's directory listing. */
  datatype Listing = Listing(kind: string, name: string)

  /** `name.endsWith(suffix)`. */
  predicate EndsWith(s: string, suffix: string) {
    |suffix| <= |s| && s[|s| - |suffix|..] == suffix
  }

  /** The test of the listing filter; unlike the category token, this suffix test is case-sensitive. */
  predicate IsJsonFile(i: Listing) {
    i.kind == "file" && EndsWith(i.name, ".json")
  }

  /** The JSON files of the listing, in listing order. */
  function JsonFiles(items: seq<Listing>): seq<Listing> {
    Filter(items, IsJsonFile)
  }

  /** The listing keeps exactly the files whose name ends with `.json`, in listing order. */
  lemma JsonFilesSpec(items: seq<Listing>, it: Listing)
    ensures it in JsonFiles(items) <==> it in items && it.kind == "file" && EndsWith(it.name, ".json")
    ensures Subseq(JsonFiles(items), items)
  {
    FilterMember(items, IsJsonFile, it);
    FilterSubseq(items, IsJsonFile);
  }
}
