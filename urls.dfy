/**
 * URLs as the crawler handles them, and the library functions it calls on them.
 *
 * The crawler never looks inside a URL except through a handful of library
 * calls (rendering it as a string, resolving a reference, parsing a string,
 * finding the registrable domain of a host). Those calls are gathered in
 * `Env` as function-valued fields, so every property proved here holds for
 * every behaviour those libraries might have.
 */
module Urls {

  datatype Option<+T> = None | Some(value: T)

  /**
   * A parsed URL: the fields of Go's url.URL. Go keeps the host name and the
   * port together in one `Host` string and strips the port in `Hostname()`;
   * here the two are separate fields, so `Hostname` is a field read.
   */
  datatype Url = Url(
    scheme: string,
    opaquePart: string,
    user: string,
    host: string,
    port: string,
    path: string,
    rawPath: string,
    forceQuery: bool,
    rawQuery: string,
    fragment: string)

  /** The host name of a URL, without its port (url.URL.Hostname). */
  function Hostname(u: Url): string
  {
    u.host
  }

  /**
   * The foreign functions the crawler depends on, left uninterpreted:
   *  - render: url.URL.String, the text form used as the index key;
   *  - tldPlusOne: publicsuffix.EffectiveTLDPlusOne, None when it fails;
   *  - resolve: base.ResolveReference(ref);
   *  - parse: url.Parse, None when it fails.
   */
  datatype Env = Env(
    render: Url -> string,
    tldPlusOne: string -> Option<string>,
    resolve: (Url, Url) -> Url,
    parse: string -> Option<Url>)

  /**
   * The method (*url.URL).Parse of base: url.Parse of ref, then resolved
   * against base with ResolveReference; None when the parse fails.
   */
  function ParseRef(env: Env, base: Url, ref: string): Option<Url>
  {
    match env.parse(ref)
    case None => None
    case Some(u) => Some(env.resolve(base, u))
  }
}
