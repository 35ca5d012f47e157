/** The server's fixed table from file extension to content type, and the
    case-insensitive lookup with its `application/octet-stream` default. */
module Mime {

  const DefaultType := "application/octet-stream"

  /** The extension table (serve.js, MIME_TYPES). Keys are lower case and
      carry their leading dot. */
  const Types: map<string, string> := map[
    ".html" := "text/html",
    ".css" := "text/css",
    ".js" := "application/javascript",
    ".json" := "application/json",
    ".png" := "image/png",
    ".jpg" := "image/jpeg",
    ".jpeg" := "image/jpeg",
    ".gif" := "image/gif",
    ".svg" := "image/svg+xml",
    ".ico" := "image/x-icon",
    ".webp" := "image/webp"
  ]

  function LowerChar(c: char): char {
    if 'A' <= c <= 'Z' then (c as int - 'A' as int + 'a' as int) as char else c
  }

  /** `s.toLowerCase()` on the ASCII letters. */
  function Lower(s: string): (r: string)
    ensures |r| == |s|
    ensures forall i :: 0 <= i < |s| ==> r[i] == LowerChar(s[i])
    decreases |s|
  {
    if s == "" then "" else [LowerChar(s[0])] + Lower(s[1..])
  }

  /** `MIME_TYPES[ext.toLowerCase()] || 'application/octet-stream'`. */
  function ContentType(ext: string): string {
    var key := Lower(ext);
    if key in Types then Types[key] else DefaultType
  }

  /** A dot followed by lower-case ASCII letters. */
  predicate LowerCaseExtension(k: string) {
    |k| >= 2 && k[0] == '.' && forall i :: 1 <= i < |k| ==> 'a' <= k[i] <= 'z'
  }

  lemma LowerOfLowerCaseExtension(k: string)
    requires LowerCaseExtension(k)
    ensures Lower(k) == k
  {
  }

  /** Every key of the table is a dot and lower-case letters, so the lookup
      finds every entry under its own key. */
  lemma TypesKeys()
    ensures forall k :: k in Types ==> LowerCaseExtension(k) && ContentType(k) == Types[k]
  {
    forall k | k in Types
      ensures LowerCaseExtension(k) && ContentType(k) == Types[k]
    {
      assert LowerCaseExtension(k);
      LowerOfLowerCaseExtension(k);
    }
  }

  lemma {:induction false} LowerIdempotent(s: string)
    ensures Lower(Lower(s)) == Lower(s)
  {
    assert forall i :: 0 <= i < |s| ==> LowerChar(LowerChar(s[i])) == LowerChar(s[i]);
  }

  /** Lookup ignores letter case: an extension and its lower-case form give
      the same type. */
  lemma ContentTypeIgnoresCase(ext: string)
    ensures ContentType(ext) == ContentType(Lower(ext))
  {
    LowerIdempotent(ext);
  }

  /** The default is given exactly for the extensions the table lacks, since
      no entry of the table maps to it. */
  lemma ContentTypeDefault(ext: string)
    ensures ContentType(ext) == DefaultType <==> Lower(ext) !in Types
  {
  }

  /** Both `.jpg` and `.jpeg`, and no other extension, give `image/jpeg`. */
  lemma JpegSpellings(ext: string)
    ensures ContentType(ext) == "image/jpeg" <==> Lower(ext) == ".jpg" || Lower(ext) == ".jpeg"
  {
  }

  lemma HtmlType()
    ensures ContentType(".html") == "text/html"
  {
    assert Lower(".html") == ".html";
  }

  /** Upper-case spellings are found: `.PNG` is an image and `.Html` a page. */
  lemma UpperCaseExtensions()
    ensures ContentType(".PNG") == "image/png"
    ensures ContentType(".JPEG") == "image/jpeg"
    ensures ContentType(".Html") == "text/html"
  {
    assert ContentType(".PNG") == "image/png" by {
      assert Lower(".PNG") == ".png";
    }
    assert ContentType(".JPEG") == "image/jpeg" by {
      assert Lower(".JPEG") == ".jpeg";
    }
    assert ContentType(".Html") == "text/html" by {
      assert Lower(".Html") == ".html";
    }
  }

  /** An unknown extension, and no extension, get the default. */
  lemma UnknownExtensions()
    ensures ContentType(".bin") == DefaultType
    ensures ContentType("") == DefaultType
  {
    assert Lower(".bin") == ".bin";
  }
}
