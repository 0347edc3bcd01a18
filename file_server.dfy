/** The directory-browsing server of mechs/server.js and its password-gated
    twin mechs/serverSec.js: path confinement, the GET handler's decision,
    the listing tiles and the random tile colour. The two files share this
    code; they differ only in the listing's icons and in the secured one's
    authentication middleware (module BasicAuth). */
module FileServer {
  import opened Wrappers
  import opened Text
  import opened PosixPath
  import opened Http
  import BasicAuth

  /** Which of the two server files serves the request. */
  datatype Variant = Open | Secured

  /** What `fs.stat` finds at a path: a directory carries what
      `fs.readdir` returns for it, `None` when reading it fails. Anything
      that is not a directory is a `FileNode`. */
  datatype Node = FileNode | DirNode(entries: Option<seq<string>>)

  /** The file system as the handler sees it; `fs.stat` of a path not in
      the map fails. */
  type FileSystem = map<string, Node>

  /** One `Math.floor(Math.random() * 16)`. */
  type Nibble = d: int | 0 <= d < 16

  const HexDigits: string := "0123456789ABCDEF"

  /** `safeResolve(root, ...reqPath)`: the resolved path when it starts with
      `root` as a string, `None` (null) otherwise. The roots the servers are
      started with are always absolute. */
  function SafeResolve(root: string, reqPath: seq<string>): (r: Option<string>)
    requires IsAbsolute(root)
    ensures r.Some? <==> root <= Resolve(root, reqPath)
    ensures r.Some? ==> r.value == Resolve(root, reqPath) && root <= r.value && IsNormalAbsolute(r.value)
    ensures root == "/" ==> r.Some?
  {
    var resolved := Resolve(root, reqPath);
    if root <= resolved then Some(resolved) else None
  }

  /** `n` letters of `0123456789ABCDEF` picked by the draws from `start`. */
  function HexLetters(draws: nat -> Nibble, start: nat, n: nat): (s: string)
    ensures |s| == n
    ensures forall i :: 0 <= i < n ==> s[i] == HexDigits[draws(start + i)]
  {
    if n == 0 then [] else HexLetters(draws, start, n - 1) + [HexDigits[draws(start + n - 1)]]
  }

  /** The colour `randomColor()` returns when its six draws are those from
      `start` on. */
  function ColorOf(draws: nat -> Nibble, start: nat): (c: string)
    ensures |c| == 7 && c[0] == '#'
    ensures forall i :: 1 <= i < 7 ==> c[i] in HexDigits
  {
    "#" + HexLetters(draws, start, 6)
  }

  /** `randomColor()`: `#` followed by six letters appended one draw at a
      time. */
  method RandomColor(draws: nat -> Nibble, start: nat) returns (color: string)
    ensures color == ColorOf(draws, start)
    ensures |color| == 7 && color[0] == '#'
    ensures forall i :: 1 <= i < 7 ==> color[i] == HexDigits[draws(start + i - 1)]
  {
    var letters := HexDigits;
    color := "#";
    for i := 0 to 6
      invariant color == "#" + HexLetters(draws, start, i)
    {
      color := color + [letters[draws(start + i)]];
    }
  }

  /** The icon class of a tile. */
  function Icon(variant: Variant, isDir: bool): string
  {
    match variant
    case Open => if isDir then "bi-folder-symlink-fill" else "bi-cloud-download-fill"
    case Secured => if isDir then "bi-folder-fill" else "bi-download"
  }

  /** `path.join(fullPath, file)`, the path each entry is `statSync`ed at. */
  function ItemPath(dir: string, name: string): string
  {
    Join([dir, name])
  }

  /** Tile `t` is what the listing shows for entry `name`, the `i`-th of
      the directory at `dir`: the name itself, a link to
      `path.join(...reqPath, name)`, the `download` attribute exactly when
      the entry is not a directory, the variant's icon, and the colour of
      the `i`-th `randomColor()` call. */
  ghost predicate ShowsEntry(t: Tile, variant: Variant, dir: string, reqPath: seq<string>, name: string,
                             fs: FileSystem, draws: nat -> Nibble, i: nat)
  {
    var item := ItemPath(dir, name);
    && item in fs
    && t.name == name
    && t.href == Join(reqPath + [name])
    && (t.download <==> !fs[item].DirNode?)
    && t.icon == Icon(variant, fs[item].DirNode?)
    && t.color == ColorOf(draws, 6 * i)
  }

  /** The tiles `files.map(...)` builds for entries `k..`, tile `i` taking
      draws `6i` to `6i+5`; the first entry whose `fs.statSync` throws ends
      the listing with that path. */
  function TilesFrom(variant: Variant, dir: string, reqPath: seq<string>, entries: seq<string>,
                     fs: FileSystem, draws: nat -> Nibble, k: nat): (r: Result<seq<Tile>, string>)
    requires k <= |entries|
    ensures r.Ok? ==> |r.value| == |entries| - k
    decreases |entries| - k
  {
    if k == |entries| then Ok([])
    else
      var item := ItemPath(dir, entries[k]);
      if item !in fs then Err(item)
      else
        var isDir := fs[item].DirNode?;
        var tile := Tile(entries[k], Join(reqPath + [entries[k]]), !isDir, Icon(variant, isDir), ColorOf(draws, 6 * k));
        match TilesFrom(variant, dir, reqPath, entries, fs, draws, k + 1)
        case Ok(rest) => Ok([tile] + rest)
        case Err(e) => Err(e)
  }

  /** The listing has one tile per directory entry, in `readdir` order,
      each showing its entry, exactly when every entry can be `stat`ed;
      otherwise the first entry that cannot is the one reported. */
  lemma {:induction false} TilesShowEntries(variant: Variant, dir: string, reqPath: seq<string>,
                                            entries: seq<string>, fs: FileSystem, draws: nat -> Nibble, k: nat)
    requires k <= |entries|
    ensures var r := TilesFrom(variant, dir, reqPath, entries, fs, draws, k);
      && (r.Ok? <==> forall i :: k <= i < |entries| ==> ItemPath(dir, entries[i]) in fs)
      && (r.Ok? ==> forall i :: k <= i < |entries| ==>
            ShowsEntry(r.value[i - k], variant, dir, reqPath, entries[i], fs, draws, i))
      && (r.Err? ==> exists i :: FirstMissing(dir, entries, fs, k, i) && r.error == ItemPath(dir, entries[i]))
    decreases |entries| - k
  {
    if k < |entries| {
      var item := ItemPath(dir, entries[k]);
      if item in fs {
        TilesShowEntries(variant, dir, reqPath, entries, fs, draws, k + 1);
        var r := TilesFrom(variant, dir, reqPath, entries, fs, draws, k);
        var rest := TilesFrom(variant, dir, reqPath, entries, fs, draws, k + 1);
        if rest.Ok? {
          forall i | k < i < |entries|
            ensures ShowsEntry(r.value[i - k], variant, dir, reqPath, entries[i], fs, draws, i)
          {
            assert r.value[i - k] == rest.value[i - (k + 1)];
          }
        } else {
          var i :| FirstMissing(dir, entries, fs, k + 1, i) && rest.error == ItemPath(dir, entries[i]);
          assert FirstMissing(dir, entries, fs, k, i);
        }
      } else {
        assert FirstMissing(dir, entries, fs, k, k);
      }
    }
  }

  /** Entry `i` is the first from `k` on whose item path cannot be `stat`ed. */
  ghost predicate FirstMissing(dir: string, entries: seq<string>, fs: FileSystem, k: nat, i: int)
  {
    && k <= i < |entries|
    && ItemPath(dir, entries[i]) !in fs
    && forall j :: k <= j < i ==> ItemPath(dir, entries[j]) in fs
  }

  /** The GET handler for `reqPath` (the request path split at `/`):
      403 when the path is rejected, 500 when `stat` or `readdir` fails, the
      listing for a directory and a download for anything else. */
  function HandleGet(variant: Variant, root: string, reqPath: seq<string>, fs: FileSystem,
                     draws: nat -> Nibble): (r: Response)
    requires IsAbsolute(root)
    ensures var p := Resolve(root, reqPath);
      && (r == Reply(403, None, "Forbidden") <==> !(root <= p))
      && (r == Reply(500, None, "Error reading path") <==> root <= p && p !in fs)
      && (r == Reply(500, None, "Error reading directory") <==> root <= p && p in fs && fs[p] == DirNode(None))
      && (r.Download? <==> root <= p && p in fs && fs[p] == FileNode)
      && (r.Download? ==> r.path == p)
      && (r.Page? ==> root <= p && p in fs && fs[p].DirNode? && fs[p].entries.Some?
                      && |r.tiles| == |fs[p].entries.value|)
      && (r.Thrown? ==> root <= p && p in fs && fs[p].DirNode? && fs[p].entries.Some?)
  {
    match SafeResolve(root, reqPath)
    case None => Reply(403, None, "Forbidden")
    case Some(full) =>
      if full !in fs then Reply(500, None, "Error reading path")
      else
        match fs[full]
        case FileNode => Download(full)
        case DirNode(None) => Reply(500, None, "Error reading directory")
        case DirNode(Some(entries)) =>
          match TilesFrom(variant, full, reqPath, entries, fs, draws, 0)
          case Ok(tiles) => Page(tiles)
          case Err(item) => Thrown(item)
  }

  /** The secured server: the authentication middleware runs first and only
      a request it lets through reaches the GET handler. */
  function HandleSecured(password: string, header: Option<string>, decode: string -> string,
                         root: string, reqPath: seq<string>, fs: FileSystem,
                         draws: nat -> Nibble): (r: Response)
    requires IsAbsolute(root)
    ensures BasicAuth.SecuredGate(password, header, decode).Next? ==> r == HandleGet(Secured, root, reqPath, fs, draws)
    ensures !Truthy(header) ==> r.Reply? && r.status == 401 && r.challenge == Some(BasicAuth.SecuredChallenge)
    ensures Truthy(header) && BasicAuth.CredentialOf(header.value, decode).Field?
            && BasicAuth.CredentialOf(header.value, decode) != BasicAuth.Field(Some(password))
            ==> r == Reply(403, None, "Forbidden")
    ensures Truthy(header) && BasicAuth.CredentialOf(header.value, decode) == BasicAuth.NoToken ==> r.Thrown?
  {
    match BasicAuth.SecuredGate(password, header, decode)
    case Next => HandleGet(Secured, root, reqPath, fs, draws)
    case Deny(response) => response
  }

  // ----- properties -----

  /** An empty request path resolves to the (normalised) root itself and
      is accepted. */
  lemma EmptyPathAccepted(root: string)
    requires IsNormalAbsolute(root)
    ensures SafeResolve(root, []) == Some(root)
  {
    ResolveIdempotent(root, root);
  }

  /** A request made of plain names (no empty, `.` or `..` piece) is
      accepted and lands on the root, a `/`, and the names joined with `/`. */
  lemma DescentAccepted(root: string, names: seq<string>)
    requires IsNormalAbsolute(root) && root != "/"
    requires names != [] && AllPlain(names)
    ensures SafeResolve(root, names) == Some(root + "/" + JoinWith(names, "/"))
  {
    ResolvePlain(root, names);
  }

  /** Requesting an existing file by its plain relative path downloads
      exactly that file. */
  lemma KnownFileDownloads(variant: Variant, root: string, names: seq<string>, fs: FileSystem,
                           draws: nat -> Nibble)
    requires IsNormalAbsolute(root) && root != "/"
    requires names != [] && AllPlain(names)
    requires root + "/" + JoinWith(names, "/") in fs
    requires fs[root + "/" + JoinWith(names, "/")] == FileNode
    ensures HandleGet(variant, root, names, fs, draws) == Download(root + "/" + JoinWith(names, "/"))
  {
    ResolvePlain(root, names);
  }

  /** The last name of a normalised path other than `/`. */
  function LastName(root: string): (n: string)
    requires IsNormalAbsolute(root) && root != "/"
    ensures IsPlain(n)
  {
    var names := Names(root);
    names[|names| - 1]
  }

  /** A single `..` climbs to the root's parent, which is shorter than the
      root, so it is rejected: the handler answers 403. */
  lemma {:induction false} ParentRejected(variant: Variant, root: string, fs: FileSystem, draws: nat -> Nibble)
    requires IsNormalAbsolute(root) && root != "/"
    ensures SafeResolve(root, [".."]) == None
    ensures HandleGet(variant, root, [".."], fs, draws) == Reply(403, None, "Forbidden")
  {
    var names := Names(root);
    var n := |names|;
    var parent := "/" + JoinWith(names[..n - 1], "/");
    assert Resolve(root, [".."]) == parent by {
      ResolveSegments(root, [".."]);
      assert IsPlain(names[n - 1]);
      assert Fold(names, [".."], false) == names[..n - 1];
    }
    assert |parent| < |root| by {
      assert IsPlain(names[n - 1]);
      if n > 1 {
        JoinAppend(names[..n - 1], [names[n - 1]], "/");
        assert names[..n - 1] + [names[n - 1]] == names;
      }
    }
  }

  /** Because the check is a string prefix test, `..` followed by a
      sibling whose name merely extends the root's last name is accepted:
      against `/srv/www`, `['..', 'www-secret']` reaches `/srv/www-secret`,
      which is not inside `/srv/www`. */
  lemma {:induction false} SiblingPrefixAccepted(root: string, suffix: string)
    requires IsNormalAbsolute(root) && root != "/"
    requires suffix != "" && '/' !in suffix
    ensures SafeResolve(root, ["..", LastName(root) + suffix]) == Some(root + suffix)
    ensures !(root + "/" <= root + suffix)
  {
    var names := Names(root);
    var n := |names|;
    var last := LastName(root);
    var sibling := last + suffix;
    ExtendedNamePlain(last, suffix);
    ResolveSegments(root, ["..", sibling]);
    UpThenDown(names, sibling);
    var init := names[..n - 1];
    ReplaceLastName(init, last, suffix);
    assert init + [last] == names;
    assert Resolve(root, ["..", sibling]) == root + suffix;
    assert (root + suffix)[|root|] == suffix[0];
    assert suffix[0] in suffix;
  }

  /** A plain name extended by text with no `/` is still plain. */
  lemma ExtendedNamePlain(name: string, suffix: string)
    requires IsPlain(name) && suffix != "" && '/' !in suffix
    ensures IsPlain(name + suffix)
  {
    var s := name + suffix;
    forall j | 0 <= j < |s| ensures s[j] != '/' {
      if j < |name| { assert s[j] == name[j]; } else { assert s[j] == suffix[j - |name|]; }
    }
    if |name| == 1 {
      assert name == [name[0]] && name[0] != '.';
      assert s[0] == name[0];
    } else {
      assert |s| >= 3;
    }
  }

  /** `..` then a plain name replaces the last name. */
  lemma UpThenDown(names: seq<string>, seg: string)
    requires names != [] && AllPlain(names) && IsPlain(seg)
    ensures Fold(names, ["..", seg], false) == names[..|names| - 1] + [seg]
  {
    var init := names[..|names| - 1];
    var up: seq<string> := [".."];
    var down: seq<string> := [seg];
    assert IsPlain(names[|names| - 1]);
    var afterUp := Step(names, "..", false);
    assert afterUp == init;
    var afterDown := Step(init, seg, false);
    assert afterDown == init + [seg];
    assert Fold(init + [seg], [], false) == init + [seg];
    assert Fold(init, down, false) == init + [seg];
    assert up + down == ["..", seg];
    FoldAppend(names, up, down, false);
    assert Fold(names, up, false) == init;
  }

  /** Joining with the last name extended is the join, extended. */
  lemma ReplaceLastName(init: seq<string>, last: string, suffix: string)
    ensures "/" + JoinWith(init + [last + suffix], "/") == "/" + JoinWith(init + [last], "/") + suffix
  {
    if init != [] {
      JoinAppend(init, [last + suffix], "/");
      JoinAppend(init, [last], "/");
    } else {
      assert init + [last + suffix] == [last + suffix];
      assert init + [last] == [last];
    }
  }

  /** The listing of directory `p` with entries `entries`: the tiles when
      every entry can be `stat`ed, the `i`-th showing the `i`-th entry. */
  lemma ListingTiles(variant: Variant, p: string, reqPath: seq<string>, entries: seq<string>,
                     fs: FileSystem, draws: nat -> Nibble)
    ensures var r := TilesFrom(variant, p, reqPath, entries, fs, draws, 0);
      && (r.Ok? <==> forall i :: 0 <= i < |entries| ==> ItemPath(p, entries[i]) in fs)
      && (r.Ok? ==> forall i :: 0 <= i < |entries| ==> ShowsEntry(r.value[i], variant, p, reqPath, entries[i], fs, draws, i))
  {
    var r := TilesFrom(variant, p, reqPath, entries, fs, draws, 0);
    assert r.Ok? <==> forall i :: 0 <= i < |entries| ==> ItemPath(p, entries[i]) in fs by {
      TilesShowEntries(variant, p, reqPath, entries, fs, draws, 0);
    }
    if r.Ok? {
      forall i | 0 <= i < |entries| ensures ShowsEntry(r.value[i], variant, p, reqPath, entries[i], fs, draws, i) {
        TileAt(variant, p, reqPath, entries, fs, draws, i);
      }
    }
  }

  /** Tile `i` of a complete listing shows entry `i`. */
  lemma TileAt(variant: Variant, p: string, reqPath: seq<string>, entries: seq<string>,
               fs: FileSystem, draws: nat -> Nibble, i: nat)
    requires i < |entries|
    requires TilesFrom(variant, p, reqPath, entries, fs, draws, 0).Ok?
    ensures ShowsEntry(TilesFrom(variant, p, reqPath, entries, fs, draws, 0).value[i],
                       variant, p, reqPath, entries[i], fs, draws, i)
  {
    var tiles := TilesFrom(variant, p, reqPath, entries, fs, draws, 0).value;
    TilesShowEntries(variant, p, reqPath, entries, fs, draws, 0);
    assert tiles[i - 0] == tiles[i];
  }

  /** A listing page is served exactly when the path is accepted, names a
      readable directory and every entry can be `stat`ed; its `i`-th tile
      shows the directory's `i`-th entry. */
  lemma PageShowsEntries(variant: Variant, root: string, reqPath: seq<string>, fs: FileSystem,
                         draws: nat -> Nibble)
    requires IsAbsolute(root)
    ensures var r := HandleGet(variant, root, reqPath, fs, draws);
      var p := Resolve(root, reqPath);
      && (r.Page? <==> root <= p && p in fs && fs[p].DirNode? && fs[p].entries.Some?
                       && forall i :: 0 <= i < |fs[p].entries.value| ==> ItemPath(p, fs[p].entries.value[i]) in fs)
      && (r.Page? ==> forall i :: 0 <= i < |r.tiles| ==>
            ShowsEntry(r.tiles[i], variant, p, reqPath, fs[p].entries.value[i], fs, draws, i))
  {
    var p := Resolve(root, reqPath);
    if root <= p && p in fs && fs[p].DirNode? && fs[p].entries.Some? {
      var entries := fs[p].entries.value;
      assert SafeResolve(root, reqPath) == Some(p);
      ListingTiles(variant, p, reqPath, entries, fs, draws);
    }
  }

  /** In the secured listing a directory's tile has the `bi-folder-fill`
      icon and no `download` attribute, a file's tile the `bi-download`
      icon and the attribute. */
  lemma SecuredIcons(root: string, reqPath: seq<string>, fs: FileSystem, draws: nat -> Nibble)
    requires IsAbsolute(root)
    ensures var r := HandleGet(Secured, root, reqPath, fs, draws);
      r.Page? ==> forall i :: 0 <= i < |r.tiles| ==>
        r.tiles[i].icon == (if r.tiles[i].download then "bi-download" else "bi-folder-fill")
  {
    PageShowsEntries(Secured, root, reqPath, fs, draws);
  }

  /** `'srv/www'.split('/')` is `['srv', 'www']`. */
  lemma SplitSrvWww()
    ensures SplitOn("srv/www", '/') == ["srv", "www"]
  {
    var srv, www := "srv", "www";
    assert '/' !in srv && '/' !in www;
    assert SplitOn(www, '/') == [www] by { SplitNone(www, '/'); }
    assert SplitOn(srv + ['/'] + www, '/') == [srv] + SplitOn(www, '/') by { SplitHead(srv, www, '/'); }
    assert "srv/www" == srv + ['/'] + www;
  }

  /** The names of `/srv/www` are `srv` and `www`. */
  lemma NamesOfSrvWww()
    ensures IsNormalAbsolute("/srv/www")
    ensures Names("/srv/www") == ["srv", "www"]
  {
    SplitSrvWww();
    assert "/srv/www"[1..] == "srv/www";
    assert IsPlain("srv") && IsPlain("www");
  }

  /** Against the root `/srv/www`, `['..']` is rejected. */
  lemma SrvWwwParent()
    ensures SafeResolve("/srv/www", [".."]) == None
  {
    NamesOfSrvWww();
    ParentRejected(Open, "/srv/www", map[], d => 0);
  }

  /** Against the root `/srv/www`, `['..', 'www-secret']` is accepted and
      reaches `/srv/www-secret`, outside the root. */
  lemma SrvWwwSibling()
    ensures SafeResolve("/srv/www", ["..", "www-secret"]) == Some("/srv/www-secret")
  {
    NamesOfSrvWww();
    var last := LastName("/srv/www");
    assert last == "www";
    SiblingPrefixAccepted("/srv/www", "-secret");
    assert last + "-secret" == "www-secret";
    assert "/srv/www" + "-secret" == "/srv/www-secret";
  }
}
