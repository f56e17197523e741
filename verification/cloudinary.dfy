/**
 The string logic of `deleteFromCloudinary`: which public id an image URL
 names. Only URLs on the Cloudinary host are considered; the id is the
 second-to-last path segment, a '/', and the last segment up to its first '.'.
 The call that destroys the asset is not modelled; the function is total, as
 the original swallows every error.
 */
module Cloudinary {
  import opened Wrappers
  import opened Strings

  const CloudinaryHost: string := "res.cloudinary.com"

  /** What a missing folder segment prints as in a JavaScript template string. */
  const UndefinedText: string := "undefined"

  /** The public id handed to the destroy call, or `None` when the URL is skipped. */
  function PublicIdOf(url: string): (id: Option<string>)
    ensures id.None? <==> url == "" || !Includes(url, CloudinaryHost)
    ensures id.Some? ==> exists folder, name :: id.value == folder + "/" + name && '.' !in name
  {
    if url == "" || !Includes(url, CloudinaryHost) then None
    else
      var parts := Split(url, '/');
      SplitPiecesFree(parts[|parts| - 1], '.');
      var name := Split(parts[|parts| - 1], '.')[0];
      var folder := if |parts| >= 2 then parts[|parts| - 2] else UndefinedText;
      Some(folder + "/" + name)
  }

  /** The first '.'-piece of a file name is everything before its first '.'. */
  lemma FirstPieceBeforeDot(file: string)
    ensures Split(file, '.')[0] == file[..IndexOfChar(file, '.')]
  {
  }

  /** For `…/<folder>/<file>` on the Cloudinary host the id is `<folder>/<file up to its first '.'>`. */
  lemma PublicIdShape(prefix: string, folder: string, file: string)
    requires '/' !in folder && '/' !in file
    requires Includes(prefix + "/" + folder + "/" + file, CloudinaryHost)
    ensures PublicIdOf(prefix + "/" + folder + "/" + file) == Some(folder + "/" + file[..IndexOfChar(file, '.')])
  {
    var url := prefix + "/" + folder + "/" + file;
    SplitAround(prefix + "/" + folder, file, '/');
    SplitAround(prefix, folder, '/');
    SplitWithout(folder, '/');
    SplitWithout(file, '/');
    assert url == (prefix + "/" + folder) + ['/'] + file;
    assert prefix + "/" + folder == prefix + ['/'] + folder;
    var parts := Split(url, '/');
    assert parts == Split(prefix, '/') + [folder] + [file];
    FirstPieceBeforeDot(file);
  }

  /** Only the text before the FIRST dot survives: "a.b.jpg" gives "a". */
  lemma KeepsTextBeforeFirstDot(stem: string, rest: string)
    requires '.' !in stem
    ensures Split(stem + "." + rest, '.')[0] == stem
  {
    IndexOfCharOfSeparated(stem, rest, '.');
    assert stem + "." + rest == stem + ['.'] + rest;
    assert (stem + ['.'] + rest)[..|stem|] == stem;
  }

  /** With no '/' at all there is no folder segment, and the id starts with "undefined/". */
  lemma NoSlashUsesUndefinedFolder(url: string)
    requires '/' !in url && Includes(url, CloudinaryHost)
    ensures PublicIdOf(url) == Some(UndefinedText + "/" + url[..IndexOfChar(url, '.')])
  {
    SplitWithout(url, '/');
    FirstPieceBeforeDot(url);
  }

  /** A URL without the Cloudinary host, or an empty one, is left alone. */
  lemma OtherHostsSkipped(url: string)
    requires forall i :: !OccursAt(url, CloudinaryHost, i)
    ensures PublicIdOf(url) == None
  {
    IncludesIff(url, CloudinaryHost);
  }

  /**
   The documented format: any URL on the Cloudinary host ending in
   "/folder/public_id.jpg", such as
   "https://res.cloudinary.com/cloud_name/image/upload/v1234567/folder/public_id.jpg",
   names "folder/public_id".
   */
  lemma DocumentedExample(prefix: string, i: nat)
    requires OccursAt(prefix, CloudinaryHost, i)
    ensures PublicIdOf(prefix + "/folder/public_id.jpg") == Some("folder/public_id")
  {
    var url := prefix + "/folder/public_id.jpg";
    var folder, file := "folder", "public_id.jpg";
    assert url == prefix + "/" + folder + "/" + file;
    assert url[i..i + |CloudinaryHost|] == prefix[i..i + |CloudinaryHost|];
    assert OccursAt(url, CloudinaryHost, i);
    IncludesIff(url, CloudinaryHost);
    PublicIdShape(prefix, folder, file);
    ExampleFileName();
    ExampleId();
  }

  lemma ExampleFileName()
    ensures "public_id.jpg"[..IndexOfChar("public_id.jpg", '.')] == "public_id"
  {
    var stem, ext := "public_id", "jpg";
    IndexOfCharOfSeparated(stem, ext, '.');
    assert (stem + ['.'] + ext)[..|stem|] == stem;
    assert stem + ['.'] + ext == "public_id.jpg";
  }

  lemma ExampleId()
    ensures "folder" + "/" + "public_id" == "folder/public_id"
  {
  }
}
