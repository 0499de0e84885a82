/** The immutable records a translation file decodes into, and the
    "deserialize or null" loaders built on top of the JSON decoder. */
module Serialization {
  import opened Wrappers

  datatype Verse = Verse(name: string, verse: int, text: string)

  datatype Chapter = Chapter(name: string, verses: seq<Verse>)

  datatype Book = Book(name: string, chapters: seq<Chapter>)

  /** One translation file: its metadata and the Book -> Chapter -> Verse tree. */
  datatype Bible = Bible(
    abbreviation: string,
    about: string,
    license: string,
    translation: string,
    books: seq<Book>)

  /** One entry of the translation index. */
  datatype Translation = Translation(
    abbreviation: string,
    about: string,
    license: string,
    translation: string,
    lang: string,
    language: string,
    sha: string)

  /** A decoded JSON object, each member's value kept as the text its
      `toString()` renders. */
  type JsonObject = map<string, string>

  /** The translations whose JSON file is present and decodes: the value
      `deserializeBible` returns for that translation's path. */
  type Library = map<string, Bible>

  /** The app's external files: path to file contents. */
  type Files = map<string, string>

  /** What the JSON decoder does with one text: a value, or the
      `SerializationException` it raises. The decoder itself is not modelled. */
  datatype Decoding<+T> = Decoded(value: T) | SerializationException

  /** `deserializeBible`, `deserialize` and `deserializeTranslations` share one
      shape: a missing file and a decoding failure both yield `null`, so a
      loader never fails, and any value it does return is what the decoder
      produced from the file's text. */
  function Deserialize<T>(files: Files, path: string, decode: string -> Decoding<T>): (r: Option<T>)
    ensures path !in files ==> r == None
    ensures path in files && decode(files[path]).SerializationException? ==> r == None
    ensures r.Some? <==> path in files && decode(files[path]).Decoded?
    ensures r.Some? ==> decode(files[path]) == Decoded(r.value)
  {
    if path !in files then None
    else match decode(files[path])
      case Decoded(v) => Some(v)
      case SerializationException => None
  }

  /** Where a translation's file lives: `Translations/<abbrev>.json`. */
  function TranslationPath(abbrev: string): (p: string)
    ensures |p| == |abbrev| + 18
    ensures p[13..|p| - 5] == abbrev
  {
    "Translations/" + abbrev + ".json"
  }

  /** Different translations have different files. */
  lemma TranslationPathInjective(a: string, b: string)
    requires TranslationPath(a) == TranslationPath(b)
    ensures a == b
  {
    var p := TranslationPath(a);
    assert a == p[13..|p| - 5];
  }

  /** `lib` is what `deserializeBible` returns for each translation's path
      in `files`: a translation is in the library exactly when its file is
      present and decodes, and then it maps to the decoded value. */
  ghost predicate LibraryOf(lib: Library, files: Files, decode: string -> Decoding<Bible>) {
    forall a: string :: Deserialize(files, TranslationPath(a), decode) == (if a in lib then Some(lib[a]) else None)
  }

  /** The files determine the library. */
  lemma {:induction false} LibraryOfUnique(lib: Library, other: Library, files: Files, decode: string -> Decoding<Bible>)
    requires LibraryOf(lib, files, decode) && LibraryOf(other, files, decode)
    ensures lib == other
  {
    forall a | a in lib
      ensures a in other && other[a] == lib[a]
    {
      assert Deserialize(files, TranslationPath(a), decode) == Some(lib[a]);
    }
    forall a | a in other
      ensures a in lib
    {
      assert Deserialize(files, TranslationPath(a), decode) == Some(other[a]);
    }
  }

  /** Deleting a translation's file removes exactly that translation from
      the library. */
  lemma {:induction false} DeleteTranslationFile(lib: Library, files: Files, decode: string -> Decoding<Bible>, abbrev: string)
    requires LibraryOf(lib, files, decode)
    ensures LibraryOf(lib - {abbrev}, files - {TranslationPath(abbrev)}, decode)
  {
    var rest := files - {TranslationPath(abbrev)};
    forall a: string
      ensures Deserialize(rest, TranslationPath(a), decode) == (if a in lib - {abbrev} then Some((lib - {abbrev})[a]) else None)
    {
      if a != abbrev {
        if TranslationPath(a) == TranslationPath(abbrev) {
          TranslationPathInjective(a, abbrev);
        }
        assert Deserialize(files, TranslationPath(a), decode) == (if a in lib then Some(lib[a]) else None);
      }
    }
  }

  /** The two abbreviations `removeApocrypha` filters out. */
  const Apocrypha: set<string> := {"kjva", "statenvertalinga"}

  /** `removeApocrypha`: a null index stays null; otherwise exactly the
      entries whose key is not an apocrypha edition survive, untouched. */
  function RemoveApocrypha(index: Option<map<string, Translation>>): (r: Option<map<string, Translation>>)
    ensures index.None? <==> r.None?
    ensures r.Some? ==> r.value.Keys == index.value.Keys - Apocrypha
    ensures r.Some? ==> forall k :: k in r.value ==> r.value[k] == index.value[k]
  {
    match index
    case None => None
    case Some(m) => Some(map k | k in m && k !in Apocrypha :: m[k])
  }

  /** Filtering the apocrypha a second time changes nothing. */
  lemma RemoveApocryphaIdempotent(index: Option<map<string, Translation>>)
    ensures RemoveApocrypha(RemoveApocrypha(index)) == RemoveApocrypha(index)
  {
    if index.Some? {
      var once := RemoveApocrypha(index).value;
      var twice := RemoveApocrypha(Some(once)).value;
      assert twice.Keys == once.Keys;
      assert forall k :: k in twice ==> twice[k] == once[k];
      assert twice == once;
    }
  }
}
