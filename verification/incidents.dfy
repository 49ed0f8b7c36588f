/**
 * The request body `fetchIncidents` posts to the traffic-situation service:
 * a fixed XML envelope with the configured API key pasted in, unescaped.
 */
module Incidents {
  import opened Wrappers
  import Config

  /** The `CONFIG` property holding the API key. */
  const ApiKeyProperty := "TRAFIKVERKET_API_KEY"

  // The template literal, cut at the interpolation and at the attributes.
  const Prologue := "<?xml version=\"1.0\" encoding=\"utf-8\"?>\n    <REQUEST>\n        <LOGIN "
  const KeyAttrOpen := "authenticationkey=\""
  const KeyAttrClose := "\""
  const LoginClose := " />\n        <QUERY "
  const QueryAttrs := "objecttype=\"Situation\" schemaversion=\"1.4\""
  const Epilogue := "></QUERY>\n    </REQUEST>"

  /** The envelope up to the interpolated key. */
  const RequestHead := Prologue + KeyAttrOpen

  /** The envelope after the interpolated key. */
  const RequestTail := KeyAttrClose + LoginClose + QueryAttrs + Epilogue

  /** `s` occurs in `text` at index `i`. */
  predicate IsAt(text: string, s: string, i: int) {
    0 <= i && i + |s| <= |text| && text[i..i + |s|] == s
  }

  /** `s` occurs in `text`. */
  predicate Contains(text: string, s: string) {
    exists i :: 0 <= i <= |text| && IsAt(text, s, i)
  }

  /**
   * Where the attributes lie in a body assembled as `RequestHead + key +
   * RequestTail`, for any text in the places of the constants.
   */
  lemma AttributesAt(p: string, a: string, k: string, c: string, l: string, q: string, e: string)
    ensures IsAt((p + a) + k + (((c + l) + q) + e), a + k + c, |p|)
    ensures IsAt((p + a) + k + (((c + l) + q) + e), q, |p| + |a| + |k| + |c| + |l|)
  {
  }

  /** How a template literal renders a property read: its value, or `undefined` when it is missing. */
  function Rendered(v: Option<string>): string {
    match v
    case Some(s) => s
    case None => "undefined"
  }

  /**
   * The template literal of `fetchIncidents`. The key sits verbatim between
   * the quotes of `authenticationkey`, and the query asks for `Situation`
   * objects at schema version 1.4.
   */
  function RequestBody(apiKey: Option<string>): (body: string)
    ensures |body| == |RequestHead| + |Rendered(apiKey)| + |RequestTail|
    ensures Contains(body, KeyAttrOpen + Rendered(apiKey) + KeyAttrClose)
    ensures Contains(body, QueryAttrs)
  {
    var key := Rendered(apiKey);
    AttributesAt(Prologue, KeyAttrOpen, key, KeyAttrClose, LoginClose, QueryAttrs, Epilogue);
    RequestHead + key + RequestTail
  }

  /** The body built from the `CONFIG` object as it stands. */
  function RequestBodyFor(config: Config.Store): string {
    RequestBody(Lookup(config, ApiKeyProperty))
  }

  /** Reads the key back out of a request body: the text between head and tail. */
  function KeyOf(body: string): Option<string> {
    if |body| >= |RequestHead| + |RequestTail|
       && body[..|RequestHead|] == RequestHead
       && body[|body| - |RequestTail|..] == RequestTail
    then Some(body[|RequestHead|..|body| - |RequestTail|])
    else None
  }

  /** The key put into the body is exactly the key read back out of it. */
  lemma KeyOfRequestBody(apiKey: Option<string>)
    ensures KeyOf(RequestBody(apiKey)) == Some(Rendered(apiKey))
  {
  }

  /** Different configured keys give different bodies. */
  lemma RequestBodyInjective(a: string, b: string)
    requires RequestBody(Some(a)) == RequestBody(Some(b))
    ensures a == b
  {
    KeyOfRequestBody(Some(a));
    KeyOfRequestBody(Some(b));
  }

  /**
   * A missing key is not detected: the body is the one a key spelled
   * `undefined` would give.
   */
  lemma MissingKeyRendersUndefined(config: Config.Store)
    requires ApiKeyProperty !in config
    ensures RequestBodyFor(config) == RequestBody(Some("undefined"))
    ensures Contains(RequestBodyFor(config), KeyAttrOpen + "undefined" + KeyAttrClose)
  {
  }

  /**
   * From config text to request: the key the last assigning
   * `TRAFIKVERKET_API_KEY` line stores, once the loop gets that far, is the
   * one the body carries.
   */
  lemma ConfiguredKeyInBody(store: Config.Store, effects: seq<Config.LineEffect>, i: nat, key: string)
    requires i < |effects| && effects[i] == Config.Assign(ApiKeyProperty, key)
    requires Config.Throws !in effects[..i]
    requires forall j :: i < j < |effects| ==> !Config.AssignsKey(effects[j], ApiKeyProperty)
    ensures Contains(RequestBodyFor(Config.Apply(store, effects).store), KeyAttrOpen + key + KeyAttrClose)
    ensures KeyOf(RequestBodyFor(Config.Apply(store, effects).store)) == Some(key)
  {
    Config.LastWriteWins(store, effects, i, ApiKeyProperty, key);
    KeyOfRequestBody(Some(key));
  }
}
