/** What a request handler or a middleware hands back. */
module Http {
  import opened Wrappers

  /** One entry of a directory listing: the shown name, the link target,
      whether the link carries the `download` attribute, the icon class and
      the tile's background colour. */
  datatype Tile = Tile(name: string, href: string, download: bool, icon: string, color: string)

  datatype Response =
    /** `res.status(status).send(body)`, with a `WWW-Authenticate` header
        when `challenge` is present. */
    | Reply(status: nat, challenge: Option<string>, body: string)
    /** The HTML listing page, one tile per directory entry. */
    | Page(tiles: seq<Tile>)
    /** `res.download(path)`: the file at `path` sent as an attachment. */
    | Download(path: string)
    /** An exception escaped the handler; `detail` names what threw. */
    | Thrown(detail: string)

  /** A middleware either calls `next()` or answers the request itself. */
  datatype Gate = Next | Deny(response: Response)
}
