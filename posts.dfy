/**
 * The records that flow through the pipeline: the raw post exactly as the
 * aggregation API returns it (an untyped JSON object), and the filtered post
 * that keeps only the four wanted attributes.
 */
module Posts {
  import opened Wrappers

  /** A JSON value as decoded from the API response. */
  datatype Value =
    | Null
    | Bool(b: bool)
    | Number(n: int)
    | Str(s: string)
    | Array(items: seq<Value>)
    | Object(fields: map<string, Value>)

  /** A raw post: a JSON object with no schema beyond "string keys". */
  type RawPost = map<string, Value>

  const Author: string := "author"
  const CreatedUtc: string := "created_utc"
  const Title: string := "title"
  const Flair: string := "link_flair_text"

  /** The wanted keys, in the order in which they are read and written. */
  const WantedKeys: seq<string> := [Author, CreatedUtc, Title, Flair]

  /** The exception raised by `post[key]` when `key` is absent. */
  datatype KeyError = KeyError(key: string)

  /** A post reduced to the wanted keys; each value is copied unchanged. */
  datatype FilteredPost = FilteredPost(author: Value, createdUtc: Value, title: Value, flair: Value)

  predicate HasWantedKeys(p: RawPost) {
    forall k :: k in WantedKeys ==> k in p
  }

  /** The filtered post as the dictionary the source builds: its keys are exactly the wanted keys. */
  function AsMap(f: FilteredPost): (m: map<string, Value>)
    ensures forall k :: k in m <==> k in WantedKeys
  {
    map[Author := f.author, CreatedUtc := f.createdUtc, Title := f.title, Flair := f.flair]
  }

  /**
   * The dictionary comprehension `{key: post[key] for key in WANTED_KEYS}`:
   * it reads the wanted keys in order and fails on the first one that is absent.
   */
  function Project(p: RawPost): (r: Result<FilteredPost, KeyError>)
    ensures r.Success? <==> HasWantedKeys(p)
    ensures r.Success? ==> AsMap(r.value) == map k | k in WantedKeys && k in p :: p[k]
    ensures r.Failure? ==>
      exists i :: 0 <= i < |WantedKeys| && WantedKeys[i] == r.error.key && r.error.key !in p &&
        forall j :: 0 <= j < i ==> WantedKeys[j] in p
  {
    if Author !in p then assert WantedKeys[0] == Author; Failure(KeyError(Author))
    else if CreatedUtc !in p then assert WantedKeys[1] == CreatedUtc; Failure(KeyError(CreatedUtc))
    else if Title !in p then assert WantedKeys[2] == Title; Failure(KeyError(Title))
    else if Flair !in p then assert WantedKeys[3] == Flair; Failure(KeyError(Flair))
    else Success(FilteredPost(p[Author], p[CreatedUtc], p[Title], p[Flair]))
  }

  /** A post that has the flair key can only fail projection on one of the other three keys. */
  lemma FlairedFailsOnOtherKey(p: RawPost)
    requires Flair in p
    requires Project(p).Failure?
    ensures Project(p).error.key in [Author, CreatedUtc, Title]
  {
  }

  /** Extra keys are dropped and the wanted values are copied unchanged. */
  lemma ProjectExample()
    ensures
      var p := map[Author := Str("a"), CreatedUtc := Number(1000), Title := Str("T"),
                   Flair := Str("F"), "score" := Number(99)];
      Project(p) == Success(FilteredPost(Str("a"), Number(1000), Str("T"), Str("F"))) &&
      "score" !in AsMap(Project(p).value)
  {
  }
}
