/** The library calls the core makes but whose code is not part of this
    model, as opaque function values supplied by the caller. */
module Library {
  import opened Wrappers

  datatype Lib = Lib(
    /** `mimetypes.guess_type(url)[0]`. */
    guessType: string -> Option<string>,
    /** `urllib.parse.urljoin(base, ref)`. */
    urlJoin: (string, string) -> string,
    /** `urllib.parse.quote_plus(s)`. */
    quotePlus: string -> string,
    /** `urllib.parse.urlparse(url).path`. */
    urlPath: string -> string,
    /** `str.isalnum()` for a character beyond ASCII. */
    isAlnum: char -> bool,
    /** `os.path.abspath(os.path.join(os.path.expanduser(dir), name))`. */
    pathJoin: (string, string) -> string)
}
