/** The cookie records read from the INSTAHYRE_COOKIES environment variable and
    the normalisation the script applies to them before handing them to the
    browser (apply.js lines 19-28). */
module Cookies {
  import opened Wrappers

  /** A JavaScript value as it can appear in a parsed cookie record.
      `Undefined` is what reading a missing property yields; `Compound`
      stands for any array or object, which is always truthy. */
  datatype Value = Undefined | Null | Bool(b: bool) | Num(x: real) | Str(s: string) | Compound

  /** A cookie record: its own properties, by name. */
  type Record = map<string, Value>

  const DefaultDomain: string := ".instahyre.com"
  const DefaultPath: string := "/"

  /** JavaScript truthiness: `undefined`, `null`, `false`, `0` and `""` are falsy. */
  predicate Truthy(v: Value) {
    match v
    case Undefined => false
    case Null => false
    case Bool(b) => b
    case Num(x) => x != 0.0
    case Str(s) => |s| > 0
    case Compound => true
  }

  /** The falsy values are exactly `undefined`, `null`, `false`, `0` and `""`. */
  lemma FalsyValues(v: Value)
    ensures !Truthy(v) <==> v in {Undefined, Null, Bool(false), Num(0.0), Str("")}
  {
  }

  /** Property access `c.k`: a missing property reads as `undefined`. */
  function Field(c: Record, k: string): Value {
    if k in c then c[k] else Undefined
  }

  /** The record has neither a truthy `domain` nor a truthy `url`. */
  predicate NeedsDomain(c: Record) {
    !Truthy(Field(c, "domain")) && !Truthy(Field(c, "url"))
  }

  /** What the browser is handed: a truthy path, and a truthy domain or url. */
  predicate Normalized(c: Record) {
    Truthy(Field(c, "path")) && !NeedsDomain(c)
  }

  /** The body of the `cookies.map` callback: copy the record, give it the
      default domain when it has neither domain nor url, then give it the
      default path when its path is falsy. */
  function NormalizeCookie(c: Record): (r: Record)
    ensures r.Keys == c.Keys + {"path"} + (if NeedsDomain(c) then {"domain"} else {})
    ensures forall k :: k in c && k != "domain" && k != "path" ==> r[k] == c[k]
    ensures Truthy(r["path"])
    ensures Truthy(Field(c, "path")) ==> r["path"] == c["path"]
    ensures !Truthy(Field(c, "path")) ==> r["path"] == Str(DefaultPath)
    ensures NeedsDomain(c) ==> r["domain"] == Str(DefaultDomain)
    ensures !NeedsDomain(c) ==> Field(r, "domain") == Field(c, "domain")
  {
    var withDomain := if NeedsDomain(c) then c["domain" := Str(DefaultDomain)] else c;
    if Truthy(Field(withDomain, "path")) then withDomain
    else withDomain["path" := Str(DefaultPath)]
  }

  /** Every normalised record is ready for the browser. */
  lemma NormalizeEstablishes(c: Record)
    ensures Normalized(NormalizeCookie(c))
  {
    var r := NormalizeCookie(c);
    assert Field(r, "url") == Field(c, "url");
  }

  /** Normalisation changes a record exactly when it is not yet normalised:
      a record that already has a truthy path and a truthy domain or url is
      passed through untouched, and every other record is altered. */
  lemma NormalizeFixpoint(c: Record)
    ensures NormalizeCookie(c) == c <==> Normalized(c)
  {
    if Normalized(c) {
      var r := NormalizeCookie(c);
      assert r.Keys == c.Keys;
      assert forall k :: k in c ==> r[k] == c[k];
    } else {
      NormalizeEstablishes(c);
    }
  }

  /** Normalising twice is the same as normalising once. */
  lemma NormalizeIdempotent(c: Record)
    ensures NormalizeCookie(NormalizeCookie(c)) == NormalizeCookie(c)
  {
    NormalizeEstablishes(c);
    NormalizeFixpoint(NormalizeCookie(c));
  }

  /** A record with a truthy url and no domain property leaves normalisation
      still without a domain property. */
  lemma UrlCookieGetsNoDomain(c: Record)
    requires Truthy(Field(c, "url")) && "domain" !in c
    ensures "domain" !in NormalizeCookie(c)
    ensures Field(NormalizeCookie(c), "url") == Field(c, "url")
  {
  }

  /** `cookies.map(...)`: one normalised record per input record, same order. */
  function NormalizeAll(cs: seq<Record>): (rs: seq<Record>)
    ensures |rs| == |cs|
    ensures forall i :: 0 <= i < |cs| ==> rs[i] == NormalizeCookie(cs[i])
  {
    if |cs| == 0 then [] else [NormalizeCookie(cs[0])] + NormalizeAll(cs[1..])
  }

  /** Every record handed to the browser is normalised, and the cookies that
      were already normalised are handed over unchanged. */
  lemma NormalizeAllSound(cs: seq<Record>)
    ensures forall i :: 0 <= i < |cs| ==> Normalized(NormalizeAll(cs)[i])
    ensures (forall i :: 0 <= i < |cs| ==> Normalized(cs[i])) ==> NormalizeAll(cs) == cs
  {
    forall i | 0 <= i < |cs|
      ensures Normalized(NormalizeAll(cs)[i])
      ensures Normalized(cs[i]) ==> NormalizeAll(cs)[i] == cs[i]
    {
      NormalizeEstablishes(cs[i]);
      NormalizeFixpoint(cs[i]);
    }
  }

  /** What `JSON.parse(raw)` produced: a syntax error, a value without a
      `map` method, or an array (its elements already spread into records). */
  datatype Parsed = Malformed | NotArray | Array(records: seq<Record>)

  /** The exceptions lines 20-23 can throw. */
  datatype CookieError =
    | MissingEnv      // `INSTAHYRE_COOKIES env var missing`
    | MalformedJson   // SyntaxError from JSON.parse
    | NotAnArray      // TypeError: cookies.map is not a function

  /** Lines 19-28: read the environment value, parse it and normalise each
      record.  `env` is the environment variable (None when unset) and `parse`
      stands for `JSON.parse`. */
  function LoadCookies(env: Option<string>, parse: string -> Parsed): (r: Result<seq<Record>, CookieError>)
    ensures r == Failure(MissingEnv) <==> env == None || env == Some("")
    ensures r.Success? <==> env.Some? && env.value != "" && parse(env.value).Array?
    ensures r.Success? ==> r.value == NormalizeAll(parse(env.value).records)
    ensures r.Failure? && r.error == MalformedJson ==> parse(env.value) == Malformed
    ensures env.Some? && env.value != "" && parse(env.value) == Malformed ==> r == Failure(MalformedJson)
    ensures env.Some? && env.value != "" && parse(env.value) == NotArray ==> r == Failure(NotAnArray)
  {
    if env == None || env.value == "" then Failure(MissingEnv)
    else
      match parse(env.value)
      case Malformed => Failure(MalformedJson)
      case NotArray => Failure(NotAnArray)
      case Array(records) => Success(NormalizeAll(records))
  }

  /** An environment value of "[]" is not an error: it yields no cookies. */
  lemma EmptyArrayIsAccepted(parse: string -> Parsed)
    requires parse("[]") == Array([])
    ensures LoadCookies(Some("[]"), parse) == Success([])
  {
  }
}
