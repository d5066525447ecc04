/**
 * The route builders of the media service and `getUrl`, which prefixes a route
 * with the configured API base URL.
 *
 * The base URL comes from the environment and may be unset; JavaScript's `+`
 * and template literals then print it as "undefined".
 */
module ApiRoutes {
  import opened Js

  const FilesRoute: string := "/data/files"
  const ViewPrefix: string := "/data/files/view/"

  /** `upload.deleteFilesByIds()`. */
  function DeleteFilesByIds(): string { "/data/files/delete" }

  /** `upload.view(path)`: the path appended to the view prefix. */
  function View(path: string): string { ViewPrefix + path }

  /** `upload.uploadFile()`. */
  function UploadFile(): string { "/data/files/upload" }

  /** `upload.findAll()`. */
  function FindAll(): string { FilesRoute }

  /** `upload.updateMedia()` as written: the only route without a leading '/'. */
  function UpdateMediaAsWritten(): string { "data/files/update" }

  /** The update route with the leading '/' every other route has. */
  function UpdateMedia(): string { "/data/files/update" }

  /** `String(v)` for the configured base URL. */
  function BaseText(v: Nullable<string>): string {
    match v
    case Undefined => "undefined"
    case Null => "null"
    case Present(s) => s
  }

  /** `getUrl(path)`: the base URL text followed by the path. */
  function GetUrl(base: Nullable<string>, path: string): (url: string)
    ensures StartsWith(url, BaseText(base)) && EndsWith(url, path)
    ensures |url| == |BaseText(base)| + |path|
  {
    BaseText(base) + path
  }

  /** The server side of `view`: the path a view route names, if it is one. */
  function ViewedPath(route: string): Option<string> {
    if StartsWith(route, ViewPrefix) then Some(route[|ViewPrefix|..]) else None
  }

  /** `view` and `ViewedPath` are inverse: a route names path `p` exactly when it is
      the view route of `p`. */
  lemma ViewRoundTrip(route: string, p: string)
    ensures ViewedPath(route) == Some(p) <==> route == View(p)
  {
    if route == View(p) {
      assert route[..|ViewPrefix|] == ViewPrefix;
      assert route[|ViewPrefix|..] == p;
    }
    if ViewedPath(route) == Some(p) {
      assert route == route[..|ViewPrefix|] + route[|ViewPrefix|..];
    }
  }

  /** Every route lives under "/data/files", is absolute, and the routes are pairwise
      distinct; `view` never produces one of the fixed routes. */
  lemma RoutesUnderFilesRoute(p: string)
    ensures StartsWith(DeleteFilesByIds(), FilesRoute) && StartsWith(UploadFile(), FilesRoute)
    ensures StartsWith(FindAll(), FilesRoute) && StartsWith(UpdateMedia(), FilesRoute)
    ensures StartsWith(View(p), FilesRoute)
    ensures |{DeleteFilesByIds(), UploadFile(), FindAll(), UpdateMedia()}| == 4
    ensures View(p) !in {DeleteFilesByIds(), UploadFile(), FindAll(), UpdateMedia()}
  {
    assert View(p)[..|FilesRoute|] == FilesRoute;
    assert View(p)[11] == '/' && View(p)[12] == 'v';
    assert DeleteFilesByIds()[12] == 'd' && UploadFile()[12] == 'u' && UpdateMedia()[12] == 'u';
    assert UploadFile()[13] == 'p' && UpdateMedia()[13] == 'p' && UploadFile()[14] == 'l';
    assert UpdateMedia()[14] == 'd';
  }

  /** As written, the update route joins the base URL without a separator, so with
      base "http://h" the request goes to "http://hdata/files/update" while every
      other route gets its '/'. */
  lemma UpdateMediaAsWrittenLosesSeparator()
    ensures GetUrl(Present("http://h"), UpdateMediaAsWritten()) == "http://hdata/files/update"
    ensures !StartsWith(UpdateMediaAsWritten(), "/")
    ensures GetUrl(Present("http://h"), FindAll()) == "http://h/data/files"
  {
    assert UpdateMediaAsWritten()[..1] == "d";
  }

  /** With the corrected update route, every route joined to a base URL puts exactly one
      '/' between the base and "data/files". */
  lemma RoutesJoinWithSeparator(base: string, p: string)
    ensures forall r :: r in {DeleteFilesByIds(), UploadFile(), FindAll(), UpdateMedia(), View(p)} ==>
      StartsWith(GetUrl(Present(base), r), base + FilesRoute)
  {
    forall r | r in {DeleteFilesByIds(), UploadFile(), FindAll(), UpdateMedia(), View(p)}
      ensures StartsWith(GetUrl(Present(base), r), base + FilesRoute)
    {
      RoutesUnderFilesRoute(p);
      assert r[..|FilesRoute|] == FilesRoute;
      assert (base + r)[..|base + FilesRoute|] == base + r[..|FilesRoute|];
    }
  }
}
