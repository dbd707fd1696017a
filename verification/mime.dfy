/** Extension-to-MIME-type table, the caller's overrides, and MIME detection. */
module Mime {
  import opened Strings

  /** The built-in extension table, `$defaultMimeTypes`. It is one map,
      written as the union of two map literals. Only `svg` is listed twice
      (under images and under fonts), with the same type both times. */
  const DefaultMimeTypes: map<string, string> := WebTypes + DocumentTypes

  /** Text, markup, scripts and data; images; archives. */
  const WebTypes: map<string, string> := map[
    // text, markup, scripts and data
    "txt" := "text/plain",
    "htm" := "text/html",
    "html" := "text/html",
    "php" := "text/html",
    "css" := "text/css",
    "js" := "application/javascript",
    "json" := "application/json",
    "xml" := "application/xml",
    "swf" := "application/x-shockwave-flash",
    "flv" := "video/x-flv",
    // images
    "png" := "image/png",
    "jpe" := "image/jpeg",
    "jpeg" := "image/jpeg",
    "jpg" := "image/jpeg",
    "gif" := "image/gif",
    "bmp" := "image/bmp",
    "ico" := "image/vnd.microsoft.icon",
    "tiff" := "image/tiff",
    "tif" := "image/tiff",
    "svg" := "image/svg+xml",
    "svgz" := "image/svg+xml",
    // archives
    "zip" := "application/zip",
    "rar" := "application/x-rar-compressed",
    "exe" := "application/x-msdownload",
    "msi" := "application/x-msdownload",
    "cab" := "application/vnd.ms-cab-compressed"
  ]

  /** Audio and video; Adobe formats; office documents; fonts. */
  const DocumentTypes: map<string, string> := map[
    // audio and video
    "mp3" := "audio/mpeg",
    "qt" := "video/quicktime",
    "mov" := "video/quicktime",
    // Adobe formats
    "pdf" := "application/pdf",
    "psd" := "image/vnd.adobe.photoshop",
    "ai" := "application/postscript",
    "eps" := "application/postscript",
    "ps" := "application/postscript",
    // Microsoft Office
    "doc" := "application/msword",
    "rtf" := "application/rtf",
    "xls" := "application/vnd.ms-excel",
    "ppt" := "application/vnd.ms-powerpoint",
    // OpenOffice
    "odt" := "application/vnd.oasis.opendocument.text",
    "ods" := "application/vnd.oasis.opendocument.spreadsheet",
    // fonts
    "eot" := "application/vnd.ms-fontobject",
    "woff" := "application/font-woff",
    "woff2" := "application/font-woff2",
    "ttf" := "application/x-font-truetype",
    "svg" := "image/svg+xml",
    "otf" := "application/x-font-opentype"
  ]

  /** A key made only of small ASCII letters and digits. */
  predicate PlainKey(k: string) {
    forall i :: 0 <= i < |k| ==> 'a' <= k[i] <= 'z' || '0' <= k[i] <= '9'
  }

  lemma WebTypesPlain()
    ensures forall k :: k in WebTypes ==> PlainKey(k)
  {
  }

  lemma DocumentTypesPlain()
    ensures forall k :: k in DocumentTypes ==> PlainKey(k)
  {
  }

  /** Every built-in key is made of small letters and digits only. */
  lemma DefaultKeysArePlain(k: string)
    requires k in DefaultMimeTypes
    ensures PlainKey(k)
  {
    WebTypesPlain();
    DocumentTypesPlain();
  }

  /** Every built-in key is reachable: it is the extension `detectMimeType`
      computes for any `name.key`, so no entry is shadowed by the
      lower-casing or by the split on dots. */
  lemma DefaultKeysAreExtensions(name: string, k: string)
    requires k in DefaultMimeTypes
    ensures Extension(name + "." + k) == k
    ensures '/' !in k
  {
    DefaultKeysArePlain(k);
    assert ToLower(k) == k;
    ExtensionOfDotted(name, k);
  }

  /** `svg`, listed in two parts, has the same type in both, and that is
      its type in the built-in table. */
  lemma SvgListedTwiceAgrees()
    ensures "svg" in WebTypes && "svg" in DocumentTypes && WebTypes["svg"] == DocumentTypes["svg"]
    ensures "svg" in DefaultMimeTypes && DefaultMimeTypes["svg"] == "image/svg+xml"
  {
    SvgInGroups();
  }

  lemma SvgInGroups()
    ensures "svg" in WebTypes && WebTypes["svg"] == "image/svg+xml"
    ensures "svg" in DocumentTypes && DocumentTypes["svg"] == "image/svg+xml"
  {
  }

  const OctetStream: string := "application/octet-stream"

  /** `array_merge($defaults, $caller)` on string keys: every key of either
      table is kept, and on a key both have the caller's value wins. */
  function Merge(defaults: map<string, string>, caller: map<string, string>): (m: map<string, string>)
    ensures m.Keys == defaults.Keys + caller.Keys
    ensures forall k :: k in caller ==> m[k] == caller[k]
    ensures forall k :: k in defaults && k !in caller ==> m[k] == defaults[k]
  {
    defaults + caller
  }

  /** Content sniffing (`finfo_file`): either the fileinfo extension is
      missing, or it names a MIME type for each path. */
  datatype Sniffer = NoFileInfo | FileInfo(mimeOf: string -> string)

  /** `detectMimeType($file)`: the table entry of the lower-cased text after
      the last '.' of the whole path if there is one, else the sniffed type,
      else `application/octet-stream`. */
  function DetectMimeType(mimeTypes: map<string, string>, file: string, sniffer: Sniffer): (mime: string)
    ensures var key := ToLower(AfterLastDot(file));
            && (key in mimeTypes ==> mime == mimeTypes[key])
            && (key !in mimeTypes && sniffer.FileInfo? ==> mime == sniffer.mimeOf(file))
            && (key !in mimeTypes && sniffer.NoFileInfo? ==> mime == OctetStream)
  {
    var ext := Extension(file);
    if ext in mimeTypes then mimeTypes[ext]
    else match sniffer
      case FileInfo(mimeOf) => mimeOf(file)
      case NoFileInfo => OctetStream
  }

  /** A file `name.ext` whose lower-cased extension is in the table gets the
      table's type whatever its contents and whatever the sniffer says. */
  lemma ExtensionWins(mimeTypes: map<string, string>, name: string, ext: string, s1: Sniffer, s2: Sniffer)
    requires '.' !in ext && ToLower(ext) in mimeTypes
    ensures DetectMimeType(mimeTypes, name + "." + ext, s1) == mimeTypes[ToLower(ext)]
    ensures DetectMimeType(mimeTypes, name + "." + ext, s1) == DetectMimeType(mimeTypes, name + "." + ext, s2)
  {
    ExtensionOfDotted(name, ext);
  }

  /** The built-in table maps `js` to JavaScript. */
  lemma DefaultJs()
    ensures "js" in DefaultMimeTypes && DefaultMimeTypes["js"] == "application/javascript"
  {
    JsIsAWebType();
  }

  lemma JsIsAWebType()
    ensures "js" in WebTypes && WebTypes["js"] == "application/javascript"
    ensures "js" !in DocumentTypes
  {
  }

  /** Any `name.js` is JavaScript under the built-in table, and so is
      `name.JS`: the extension is lower-cased before the lookup. */
  lemma ScriptsAreJavaScript(name: string, sniffer: Sniffer)
    ensures DetectMimeType(DefaultMimeTypes, name + ".js", sniffer) == "application/javascript"
    ensures DetectMimeType(DefaultMimeTypes, name + ".JS", sniffer) == "application/javascript"
  {
    DefaultJs();
    ScriptLookup(DefaultMimeTypes, name, sniffer);
  }

  /** `name.js` and `name.JS` both look up the `js` entry of a table. */
  lemma ScriptLookup(mimeTypes: map<string, string>, name: string, sniffer: Sniffer)
    requires "js" in mimeTypes
    ensures DetectMimeType(mimeTypes, name + ".js", sniffer) == mimeTypes["js"]
    ensures DetectMimeType(mimeTypes, name + ".JS", sniffer) == mimeTypes["js"]
  {
    assert ToLower("js") == "js";
    assert ToLower("JS") == "js";
    assert name + ".js" == name + "." + "js";
    assert name + ".JS" == name + "." + "JS";
    ExtensionWins(mimeTypes, name, "js", sniffer, sniffer);
    ExtensionWins(mimeTypes, name, "JS", sniffer, sniffer);
  }

  /** A dot in a directory name starts the extension when the file name has
      none: with a table whose keys hold no '/', `dir.x/name` (slash-free,
      dot-free `name`) misses the table and the type is left to the sniffer. */
  lemma DotInDirectoryName(mimeTypes: map<string, string>, dir: string, x: string, name: string, sniffer: Sniffer)
    requires forall k :: k in mimeTypes ==> '/' !in k
    requires '.' !in x && '.' !in name && '/' !in x
    requires sniffer.FileInfo?
    ensures var path := dir + "." + x + "/" + name;
            DetectMimeType(mimeTypes, path, sniffer) == sniffer.mimeOf(path)
  {
    var path := dir + "." + x + "/" + name;
    var ext := x + "/" + name;
    assert path == dir + "." + ext;
    ExtensionOfDotted(dir, ext);
    assert ToLower(ext)[|x|] == '/';
  }
}
