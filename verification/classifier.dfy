/** Classification of a file extension into one of five categories: a
    case-insensitive lookup in four fixed extension lists, checked in the
    order video, pictures, documents, music, with "other" as the fallback. */
module Classifier {

  datatype Category = Video | Pictures | Documents | Music | Other

  predicate IsUpper(c: char) {
    'A' <= c <= 'Z'
  }

  predicate IsLower(c: char) {
    'a' <= c <= 'z'
  }

  /** ASCII lower-casing of one character; every other character is kept. */
  function AsciiLower(c: char): (r: char)
    ensures !IsUpper(r)
    ensures IsUpper(c) ==> IsLower(r) && r as int == c as int + 32
    ensures !IsUpper(c) ==> r == c
  {
    if IsUpper(c) then (c as int + 32) as char else c
  }

  /** ASCII upper-casing of one character; every other character is kept. */
  function AsciiUpper(c: char): (r: char)
    ensures !IsLower(r)
    ensures IsLower(c) ==> IsUpper(r) && r as int == c as int - 32
    ensures !IsLower(c) ==> r == c
  {
    if IsLower(c) then (c as int - 32) as char else c
  }

  /** Lower-cases a string character by character. */
  function Lower(s: string): (r: string)
    ensures |r| == |s|
    ensures forall i :: 0 <= i < |s| ==> r[i] == AsciiLower(s[i])
    ensures forall i :: 0 <= i < |r| ==> !IsUpper(r[i])
  {
    if s == [] then [] else [AsciiLower(s[0])] + Lower(s[1..])
  }

  /** Upper-cases a string character by character. */
  function Upper(s: string): (r: string)
    ensures |r| == |s|
    ensures forall i :: 0 <= i < |s| ==> r[i] == AsciiUpper(s[i])
  {
    if s == [] then [] else [AsciiUpper(s[0])] + Upper(s[1..])
  }

  /** Lower-casing a string that has no upper-case letter changes nothing. */
  lemma {:induction false} LowerFixesLowercase(s: string)
    requires forall i :: 0 <= i < |s| ==> !IsUpper(s[i])
    ensures Lower(s) == s
  {
    if s != [] {
      LowerFixesLowercase(s[1..]);
    }
  }

  /** Lower-casing is idempotent. */
  lemma LowerIdempotent(s: string)
    ensures Lower(Lower(s)) == Lower(s)
  {
    LowerFixesLowercase(Lower(s));
  }

  /** Upper-casing first does not change the lower-cased form. */
  lemma {:induction false} LowerOfUpper(s: string)
    ensures Lower(Upper(s)) == Lower(s)
  {
    if s != [] {
      LowerOfUpper(s[1..]);
      assert Upper(s)[1..] == Upper(s[1..]);
    }
  }

  const VideoExtensions: seq<string> := [".mp4", ".avi", ".mkv"]
  const PictureExtensions: seq<string> := [".jpg", ".png", ".gif"]
  const DocumentExtensions: seq<string> := [".docx", ".pdf", ".txt"]
  const MusicExtensions: seq<string> := [".mp3", ".wav", ".flac"]

  /** The extension list that selects a category; "other" has none of its own. */
  function ExtensionsOf(c: Category): seq<string> {
    match c
    case Video => VideoExtensions
    case Pictures => PictureExtensions
    case Documents => DocumentExtensions
    case Music => MusicExtensions
    case Other => []
  }

  /** The category of an extension: the first list, in the order video,
      pictures, documents, music, that holds the lower-cased extension, and
      "other" when none does. */
  function Classify(ext: string): (c: Category)
    ensures c != Other ==> Lower(ext) in ExtensionsOf(c)
    ensures c == Other <==> forall k :: Lower(ext) !in ExtensionsOf(k)
  {
    var e := Lower(ext);
    if e in VideoExtensions then Video
    else if e in PictureExtensions then Pictures
    else if e in DocumentExtensions then Documents
    else if e in MusicExtensions then Music
    else Other
  }

  /** No extension is listed under two categories. */
  lemma ExtensionListsDisjoint(c: Category, k: Category, e: string)
    requires c != k
    requires e in ExtensionsOf(c)
    ensures e !in ExtensionsOf(k)
  {
  }

  /** Because the lists are disjoint, the order of the branches does not
      matter: an extension is classified as a listed category exactly when
      its lower-cased form is in that category's list. */
  lemma ClassifyByTable(ext: string, c: Category)
    requires c != Other
    ensures Classify(ext) == c <==> Lower(ext) in ExtensionsOf(c)
  {
    if Lower(ext) in ExtensionsOf(c) && Classify(ext) != c {
      ExtensionListsDisjoint(c, Classify(ext), Lower(ext));
    }
  }

  /** Every listed extension, as written, selects exactly its own category. */
  lemma ListedExtensionsClassify(c: Category, e: string)
    requires e in ExtensionsOf(c)
    ensures Classify(e) == c
  {
    assert forall i :: 0 <= i < |e| ==> !IsUpper(e[i]);
    LowerFixesLowercase(e);
    ClassifyByTable(e, c);
  }

  /** Case never matters: an extension, its lower-cased and its upper-cased
      forms all fall into the same category. */
  lemma ClassifyIgnoresCase(ext: string)
    ensures Classify(Lower(ext)) == Classify(ext)
    ensures Classify(Upper(ext)) == Classify(ext)
  {
    LowerIdempotent(ext);
    LowerOfUpper(ext);
  }

  /** The empty extension and a lone dot are in no list and fall back to "other". */
  lemma EmptyAndDotAreOther()
    ensures Classify("") == Other
    ensures Classify(".") == Other
  {
    assert Lower(".") == ".";
  }

}
