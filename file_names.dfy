/** File-name handling in FileList.tsx: the content type of a reassembled file
    (`getContentType`) and the name under which a single chunk is saved
    (`handleChunkDownload`). */
module FileNames {
  import opened Decimal

  /** The generic binary type, used for unknown extensions and for chunks. */
  const OctetStream: string := "application/octet-stream"

  /** The number of entries in the extension table of `getContentType`. */
  const MimeTableSize: nat := 23

  /** The extension of entry `i` of that table, in the order the source
      lists it: a non-empty lower-case name. */
  function MimeExtension(i: nat): (ext: string)
    requires i < MimeTableSize
    ensures ext != []
  {
    match i
    case 0 => "pdf"
    case 1 => "doc"
    case 2 => "docx"
    case 3 => "xls"
    case 4 => "xlsx"
    case 5 => "ppt"
    case 6 => "pptx"
    case 7 => "txt"
    case 8 => "html"
    case 9 => "htm"
    case 10 => "css"
    case 11 => "js"
    case 12 => "json"
    case 13 => "png"
    case 14 => "jpg"
    case 15 => "jpeg"
    case 16 => "gif"
    case 17 => "svg"
    case 18 => "zip"
    case 19 => "rar"
    case 20 => "mp3"
    case 21 => "mp4"
    case _ => "avi"
  }

  /** The type of entry `i`, which is never the generic binary type. */
  function MimeType(i: nat): (mime: string)
    requires i < MimeTableSize
    ensures mime != OctetStream
  {
    match i
    case 0 => "application/pdf"
    case 1 => "application/msword"
    case 2 => "application/vnd.openxmlformats-officedocument.wordprocessingml.document"
    case 3 => "application/vnd.ms-excel"
    case 4 => "application/vnd.openxmlformats-officedocument.spreadsheetml.sheet"
    case 5 => "application/vnd.ms-powerpoint"
    case 6 => "application/vnd.openxmlformats-officedocument.presentationml.presentation"
    case 7 => "text/plain"
    case 8 => "text/html"
    case 9 => "text/html"
    case 10 => "text/css"
    case 11 => "text/javascript"
    case 12 => "application/json"
    case 13 => "image/png"
    case 14 => "image/jpeg"
    case 15 => "image/jpeg"
    case 16 => "image/gif"
    case 17 => "image/svg+xml"
    case 18 => "application/zip"
    case 19 => "application/x-rar-compressed"
    case 20 => "audio/mpeg"
    case 21 => "video/mp4"
    case _ => "video/x-msvideo"
  }

  /** `name.split('.').pop()`: the text after the last dot, or the whole name
      when it has no dot. The contract pins it down: the longest suffix
      without a dot. */
  function AfterLastDot(s: string): (ext: string)
    ensures '.' !in ext
    ensures |ext| <= |s| && ext == s[|s| - |ext|..]
    ensures |ext| < |s| ==> s[|s| - |ext| - 1] == '.'
  {
    if s == [] then []
    else if s[|s| - 1] == '.' then []
    else AfterLastDot(s[..|s| - 1]) + [s[|s| - 1]]
  }

  /** `toLowerCase` on one character, for the ASCII letters. */
  function LowerChar(c: char): char {
    if 'A' <= c <= 'Z' then (c as int + 32) as char else c
  }

  function ToLower(s: string): string {
    seq(|s|, i requires 0 <= i < |s| => LowerChar(s[i]))
  }

  /** The type the table gives `ext`, searching from entry `i` on: that of
      the first entry for `ext`, or the generic binary type when none has it. */
  function LookupFrom(ext: string, i: nat): string
    decreases MimeTableSize - i
  {
    if i >= MimeTableSize then OctetStream
    else if MimeExtension(i) == ext then MimeType(i)
    else LookupFrom(ext, i + 1)
  }

  /** `mimeTypes[ext || ''] || 'application/octet-stream'`. */
  function Lookup(ext: string): string {
    LookupFrom(ext, 0)
  }

  /** Every extension in the table is found with its own type. */
  lemma LookupHit(k: nat)
    requires k < MimeTableSize
    ensures Lookup(MimeExtension(k)) == MimeType(k)
  {
    LookupHitFrom(k, 0);
  }

  /** No extension appears twice in the table, so searching it from the front
      finds the one entry an object lookup would. */
  lemma TableDistinct()
    ensures forall a, b :: 0 <= a < b < MimeTableSize ==> MimeExtension(a) != MimeExtension(b)
  {
  }

  /** A search that starts at or before entry `k` finds entry `k`'s type for
      its extension. */
  lemma {:induction false} LookupHitFrom(k: nat, i: nat)
    requires i <= k < MimeTableSize
    ensures LookupFrom(MimeExtension(k), i) == MimeType(k)
    decreases k - i
  {
    if i < k {
      TableDistinct();
      assert MimeExtension(i) != MimeExtension(k);
      LookupHitFrom(k, i + 1);
    }
  }

  /** A lookup from entry `i` falls back to the generic binary type when no
      later entry is for `ext`. */
  lemma {:induction false} LookupMiss(ext: string, i: nat)
    requires forall k :: i <= k < MimeTableSize ==> MimeExtension(k) != ext
    ensures LookupFrom(ext, i) == OctetStream
    decreases MimeTableSize - i
  {
    if i < MimeTableSize {
      LookupMiss(ext, i + 1);
    }
  }

  /** `getContentType`: the lower-cased text after the last dot, looked up in
      the table. */
  function ContentType(fileName: string): string {
    Lookup(ToLower(AfterLastDot(fileName)))
  }

  /** `fileName.replace(/\.[^/.]+$/, '')`: drops the last dot and what follows
      it, provided that is non-empty and holds no slash; otherwise the name is
      kept whole. */
  function StripExtension(name: string): (base: string)
    ensures base == name || name == base + "." + AfterLastDot(name)
    ensures base != name <==>
      |AfterLastDot(name)| < |name| && AfterLastDot(name) != [] && '/' !in AfterLastDot(name)
  {
    var ext := AfterLastDot(name);
    if |ext| < |name| && ext != [] && '/' !in ext then name[..|name| - |ext| - 1] else name
  }

  /** The name a single chunk is saved under: `${base}.chunk${i}.${extension}`.
      It keeps the file's extension, so it names the same content type. */
  function ChunkFileName(fileName: string, partIndex: int): (chunkName: string)
    ensures AfterLastDot(chunkName) == AfterLastDot(fileName)
    ensures ContentType(chunkName) == ContentType(fileName)
  {
    var front := StripExtension(fileName) + ".chunk" + IntToString(partIndex);
    AfterLastDotOf(front, AfterLastDot(fileName));
    front + "." + AfterLastDot(fileName)
  }

  /** The extension of `base.ext` is `ext` when `ext` has no dot, whatever `base` holds. */
  lemma {:induction false} AfterLastDotOf(base: string, ext: string)
    requires '.' !in ext
    ensures AfterLastDot(base + "." + ext) == ext
    decreases |ext|
  {
    var s := base + "." + ext;
    if ext != [] {
      var init := ext[..|ext| - 1];
      assert s[..|s| - 1] == base + "." + init;
      assert ext[|ext| - 1] in ext;
      AfterLastDotOf(base, init);
      assert init + [ext[|ext| - 1]] == ext;
    }
  }

  /** A name without a dot is its own extension. */
  lemma {:induction false} AfterLastDotWithoutDot(name: string)
    requires '.' !in name
    ensures AfterLastDot(name) == name
    decreases |name|
  {
    if name != [] {
      var init := name[..|name| - 1];
      assert name[|name| - 1] in name;
      assert '.' !in init by {
        forall c | c in init ensures c != '.' {
          assert c in name;
        }
      }
      AfterLastDotWithoutDot(init);
      assert init + [name[|name| - 1]] == name;
    }
  }

  /** The content type of `base.ext` is the table entry of `ext` in lower case. */
  lemma ContentTypeOfExtension(base: string, ext: string)
    requires '.' !in ext
    ensures ContentType(base + "." + ext) == Lookup(ToLower(ext))
  {
    AfterLastDotOf(base, ext);
  }

  /** A name without a dot is looked up whole. */
  lemma ContentTypeWithoutDot(name: string)
    requires '.' !in name
    ensures ContentType(name) == Lookup(ToLower(name))
  {
    AfterLastDotWithoutDot(name);
  }

  /** Exactly the names whose lower-cased extension the table lacks get the
      generic binary type. */
  lemma ContentTypeDefaultIff(fileName: string)
    ensures ContentType(fileName) == OctetStream <==>
      forall k :: 0 <= k < MimeTableSize ==> MimeExtension(k) != ToLower(AfterLastDot(fileName))
  {
    var ext := ToLower(AfterLastDot(fileName));
    if forall k :: 0 <= k < MimeTableSize ==> MimeExtension(k) != ext {
      LookupMiss(ext, 0);
    } else {
      var k :| 0 <= k < MimeTableSize && MimeExtension(k) == ext;
      LookupHit(k);
    }
  }

  /** A name ending in a dot has an empty extension, which the table misses. */
  lemma ContentTypeEmptyExtension(base: string)
    ensures ContentType(base + ".") == OctetStream
  {
    AfterLastDotOf(base, "");
    assert base + "." + "" == base + ".";
    assert ToLower("") == "";
    LookupMiss("", 0);
  }

  lemma {:induction false} AfterLastDotToLower(s: string)
    ensures AfterLastDot(ToLower(s)) == ToLower(AfterLastDot(s))
    decreases |s|
  {
    if s != [] {
      var init, c := s[..|s| - 1], s[|s| - 1];
      var low := ToLower(s);
      assert low[..|low| - 1] == ToLower(init) && low[|low| - 1] == LowerChar(c);
      if c == '.' {
        assert AfterLastDot(s) == [];
        assert AfterLastDot(low) == [];
      } else {
        calc {
          AfterLastDot(low);
          AfterLastDot(ToLower(init)) + [LowerChar(c)];
          { AfterLastDotToLower(init); }
          ToLower(AfterLastDot(init)) + [LowerChar(c)];
          { ToLowerSnoc(AfterLastDot(init), c); }
          ToLower(AfterLastDot(init) + [c]);
          ToLower(AfterLastDot(s));
        }
      }
    }
  }

  lemma ToLowerSnoc(s: string, c: char)
    ensures ToLower(s + [c]) == ToLower(s) + [LowerChar(c)]
  {
  }

  /** `getContentType` does not depend on the case of the name: two names
      equal up to ASCII case get the same type. */
  lemma ContentTypeIgnoresCase(a: string, b: string)
    requires ToLower(a) == ToLower(b)
    ensures ContentType(a) == ContentType(b)
  {
    AfterLastDotToLower(a);
    AfterLastDotToLower(b);
  }

  /** The table's aliases: `htm` and `html` share a type, so do `jpg` and `jpeg`. */
  lemma TableAliases()
    ensures Lookup("htm") == Lookup("html") == "text/html"
    ensures Lookup("jpg") == Lookup("jpeg") == "image/jpeg"
  {
    LookupHit(8);
    LookupHit(9);
    LookupHit(14);
    LookupHit(15);
    assert MimeExtension(8) == "html" && MimeExtension(9) == "htm" && MimeType(8) == MimeType(9) == "text/html";
    assert MimeExtension(14) == "jpg" && MimeExtension(15) == "jpeg" && MimeType(14) == MimeType(15) == "image/jpeg";
  }

  /** Hence, whatever the base name and the case of the extension, `.htm`
      and `.HTML` give `text/html`. */
  lemma HtmlAliases(base: string)
    ensures ContentType(base + ".htm") == ContentType(base + ".HTML") == "text/html"
  {
    assert ToLower("htm") == "htm" && ToLower("HTML") == "html";
    assert base + ".htm" == base + "." + "htm" && base + ".HTML" == base + "." + "HTML";
    ContentTypeOfExtension(base, "htm");
    ContentTypeOfExtension(base, "HTML");
    TableAliases();
  }

  /** Likewise `.jpg` and `.JPEG` give `image/jpeg`. */
  lemma JpegAliases(base: string)
    ensures ContentType(base + ".jpg") == ContentType(base + ".JPEG") == "image/jpeg"
  {
    assert ToLower("jpg") == "jpg" && ToLower("JPEG") == "jpeg";
    assert base + ".jpg" == base + "." + "jpg" && base + ".JPEG" == base + "." + "JPEG";
    ContentTypeOfExtension(base, "jpg");
    ContentTypeOfExtension(base, "JPEG");
    TableAliases();
  }

  /** For `base.ext` with a non-empty `ext` free of dots and slashes, a chunk
      is saved as `base.chunk{i}.ext`, the extension keeping its case. */
  lemma ChunkFileNameOfExtension(base: string, ext: string, partIndex: int)
    requires ext != [] && '.' !in ext && '/' !in ext
    ensures ChunkFileName(base + "." + ext, partIndex) == base + ".chunk" + IntToString(partIndex) + "." + ext
  {
    var name := base + "." + ext;
    AfterLastDotOf(base, ext);
    assert name[..|name| - |ext| - 1] == base;
  }

  /** The regular expression needs a non-empty extension without a slash:
      otherwise the whole name stays in front of the chunk suffix. */
  lemma ChunkFileNameKeepsWholeName(base: string, ext: string, partIndex: int)
    requires '.' !in ext && (ext == [] || '/' in ext)
    ensures ChunkFileName(base + "." + ext, partIndex) == base + "." + ext + ".chunk" + IntToString(partIndex) + "." + ext
  {
    AfterLastDotOf(base, ext);
  }

  /** A name without a dot is kept whole and also used as its own extension. */
  lemma ChunkFileNameWithoutDot(name: string, partIndex: int)
    requires '.' !in name
    ensures ChunkFileName(name, partIndex) == name + ".chunk" + IntToString(partIndex) + "." + name
  {
    AfterLastDotWithoutDot(name);
  }
}
