/**
 * The static-file route of tnt-server/src/lib.rs (`file_server`): the content type comes from
 * the path's extension, and the body from the `files` space, keyed by the path.
 */
module FileServer {
  import opened Base
  import opened Engine

  /** The extension of a path: what follows its last '.', or the whole path when it has none. */
  function Extension(path: string): (ext: string)
    ensures '.' !in ext
    ensures |ext| <= |path| && path[|path| - |ext|..] == ext
    ensures |ext| < |path| ==> path[|path| - |ext| - 1] == '.'
    decreases |path|
  {
    if path == [] then []
    else if path[|path| - 1] == '.' then []
    else
      var init := path[..|path| - 1];
      var ext := Extension(init);
      assert path[|path| - |ext| - 1..] == init[|init| - |ext|..] + [path[|path| - 1]];
      ext + [path[|path| - 1]]
  }

  /** The content type for an extension the server serves, none for any other. */
  function ContentType(ext: string): (mime: Option<string>)
    ensures mime.Some? <==> ext in {"wasm", "js", "css"}
  {
    if ext == "wasm" then Some("application/wasm")
    else if ext == "js" then Some("application/javascript")
    else if ext == "css" then Some("text/css")
    else None
  }

  datatype Response = Served(contentType: string, body: seq<bv8>) | NotFound

  /**
   * `files` maps each stored path to its content field read as bytes, `None` when the field
   * is missing or is not bytes. The lookup is one engine request, which `f` may fail.
   */
  function Serve(files: map<string, Option<seq<bv8>>>, path: string, f: Fault): (r: Response)
    ensures r.Served? <==>
      ContentType(Extension(path)).Some? && !Rejects(f, 0) && path in files && files[path].Some?
    ensures r.Served? ==>
      r.contentType == ContentType(Extension(path)).value && r.body == files[path].value
  {
    var mime := ContentType(Extension(path));
    if mime.None? then NotFound
    else if Rejects(f, 0) || path !in files || files[path].None? then NotFound
    else Served(mime.value, files[path].value)
  }

  /** The extension of `name` + "." + `ext` is `ext`, whatever dots `name` holds. */
  lemma {:induction false} ExtensionAfterDot(name: string, ext: string)
    requires '.' !in ext
    ensures Extension(name + "." + ext) == ext
    decreases |ext|
  {
    if ext == [] {
      assert name + "." + ext == name + ".";
    } else {
      var last := ext[|ext| - 1];
      var init := ext[..|ext| - 1];
      assert ext == init + [last];
      assert (name + "." + ext)[..|name + "." + ext| - 1] == name + "." + init;
      ExtensionAfterDot(name, init);
    }
  }

  /** A stored WebAssembly module is served whole with its content type. */
  lemma ServesWasm(files: map<string, Option<seq<bv8>>>, name: string, body: seq<bv8>)
    requires name + ".wasm" in files && files[name + ".wasm"] == Some(body)
    ensures Serve(files, name + ".wasm", NoFault) == Served("application/wasm", body)
  {
    assert name + ".wasm" == name + "." + "wasm";
    ExtensionAfterDot(name, "wasm");
  }

  /** A path without a dot is its own extension. */
  lemma DotlessPath(path: string)
    requires '.' !in path
    ensures Extension(path) == path
  {
  }

  /** So a file stored under the bare path "js" is served as script. */
  lemma ServesBareJs(files: map<string, Option<seq<bv8>>>, body: seq<bv8>)
    requires "js" in files && files["js"] == Some(body)
    ensures Serve(files, "js", NoFault) == Served("application/javascript", body)
  {
    DotlessPath("js");
  }

  /** An extension the server does not know is never served, whatever the files hold. */
  lemma UnknownExtension(files: map<string, Option<seq<bv8>>>, name: string, ext: string, f: Fault)
    requires '.' !in ext && ext !in {"wasm", "js", "css"}
    ensures Serve(files, name + "." + ext, f) == NotFound
  {
    ExtensionAfterDot(name, ext);
  }
}
