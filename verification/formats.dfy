/** The format catalogue, file-name extensions, the recognised-image test and
    the default target format suggested when a file comes in. */
module Formats {
  import opened Wrappers
  import Js

  /** One entry of the catalogue the user picks a target format from. */
  datatype ImageFormat = ImageFormat(value: string, title: string)

  /** The six target formats, in the order they are offered. */
  const ImageFormats: seq<ImageFormat> := [
    ImageFormat("jpg", "JPEG (.jpg)"),
    ImageFormat("png", "PNG (.png)"),
    ImageFormat("gif", "GIF (.gif)"),
    ImageFormat("bmp", "BMP (.bmp)"),
    ImageFormat("tiff", "TIFF (.tiff)"),
    ImageFormat("webp", "WebP (.webp)")
  ]

  /** `v` is the value of some catalogue entry. */
  predicate InCatalog(v: string) {
    exists i :: 0 <= i < |ImageFormats| && ImageFormats[i].value == v
  }

  /** The catalogue holds exactly six formats, each value once. */
  lemma CatalogueValues(v: string)
    ensures InCatalog(v) <==> v in {"jpg", "png", "gif", "bmp", "tiff", "webp"}
    ensures |ImageFormats| == 6
    ensures forall i, j :: 0 <= i < j < |ImageFormats| ==> ImageFormats[i].value != ImageFormats[j].value
  {
    if v in {"jpg", "png", "gif", "bmp", "tiff", "webp"} {
      var i := if v == "jpg" then 0 else if v == "png" then 1 else if v == "gif" then 2
               else if v == "bmp" then 3 else if v == "tiff" then 4 else 5;
      assert ImageFormats[i].value == v;
    }
  }

  /** The extensions the intake recognises as images. */
  const RecognisedExtensions: seq<string> := ["jpg", "jpeg", "png", "gif", "bmp", "tiff", "webp"]

  /** `isImageFile(extension)`: the lower-cased extension is a recognised one. */
  predicate IsImageFile(extension: string) {
    Js.ToLowerCase(extension) in RecognisedExtensions
  }

  /** The recognised extensions are the catalogue values plus `jpeg`, which is
      recognised although it cannot be picked as a target; case is ignored. */
  lemma IsImageFileExactly(extension: string)
    ensures IsImageFile(extension) <==> InCatalog(Js.ToLowerCase(extension)) || Js.ToLowerCase(extension) == "jpeg"
    ensures IsImageFile(extension) <==> IsImageFile(Js.ToLowerCase(extension))
    ensures !InCatalog("jpeg") && IsImageFile("JPEG") && IsImageFile("Jpg")
  {
    CatalogueValues(Js.ToLowerCase(extension));
    CatalogueValues("jpeg");
    Js.ToLowerCaseNormalises(extension);
    assert Js.ToLowerCase("JPEG") == "jpeg";
    assert Js.ToLowerCase("Jpg") == "jpg";
  }

  /** `ext` is the part of `name` after its last dot: it holds no dot, ends
      `name`, and is either all of `name` or preceded by a dot. */
  predicate IsAfterLastDot(ext: string, name: string) {
    && '.' !in ext
    && |ext| <= |name|
    && name[|name| - |ext|..] == ext
    && (|ext| == |name| || name[|name| - |ext| - 1] == '.')
  }

  /** Appending a non-dot character to a name extends its part after the
      last dot by that character. */
  lemma ExtendAfterLastDot(init: string, prefix: string, c: char)
    requires IsAfterLastDot(prefix, init) && c != '.'
    ensures IsAfterLastDot(prefix + [c], init + [c])
  {
    var name := init + [c];
    var ext := prefix + [c];
    assert name[|name| - |ext|..] == init[|init| - |prefix|..] + [c];
    if |prefix| < |init| {
      assert name[|name| - |ext| - 1] == init[|init| - |prefix| - 1];
    }
  }

  /** The part of `name` after its last dot, computed from the end of the name. */
  function AfterLastDot(name: string): (ext: string)
    ensures IsAfterLastDot(ext, name)
  {
    if |name| == 0 || name[|name| - 1] == '.' then ""
    else
      var init := name[..|name| - 1];
      var prefix := AfterLastDot(init);
      ExtendAfterLastDot(init, prefix, name[|name| - 1]);
      assert init + [name[|name| - 1]] == name;
      prefix + [name[|name| - 1]]
  }

  /** A name has exactly one part after its last dot. */
  lemma {:induction false} AfterLastDotUnique(name: string, a: string, b: string)
    requires IsAfterLastDot(a, name) && IsAfterLastDot(b, name)
    ensures a == b
  {
  }

  /** The last piece of `name.split('.')` is the part after the last dot. */
  lemma {:induction false} LastPieceIsAfterLastDot(name: string)
    ensures IsAfterLastDot(Js.Pop(Js.Split(name, '.')), name)
  {
    if |name| > 0 {
      var tail := name[1..];
      var rest := Js.Split(tail, '.');
      LastPieceIsAfterLastDot(tail);
      var last := Js.Pop(rest);
      if name[0] == '.' {
        assert Js.Pop(Js.Split(name, '.')) == last;
        assert name[|name| - |last|..] == tail[|tail| - |last|..];
      } else if |rest| == 1 {
        assert Js.Split(name, '.') == [name];
      } else {
        assert Js.Pop(Js.Split(name, '.')) == last;
        assert name[|name| - |last|..] == tail[|tail| - |last|..];
      }
    }
  }

  /** `name.split('.').pop().toLowerCase()`: the file's extension as the
      intake computes it. */
  function FileExtension(name: string): (ext: string)
    ensures ext == Js.ToLowerCase(AfterLastDot(name))
    ensures '.' !in ext && Js.IsLowerCase(ext)
    ensures '.' !in name ==> ext == Js.ToLowerCase(name)
  {
    LastPieceIsAfterLastDot(name);
    AfterLastDotUnique(name, Js.Pop(Js.Split(name, '.')), AfterLastDot(name));
    Js.ToLowerCaseNormalises(AfterLastDot(name));
    Js.ToLowerCaseKeepsNonLetter(AfterLastDot(name), '.');
    Js.ToLowerCase(Js.Pop(Js.Split(name, '.')))
  }

  /** A name of the form `stem.ext`, where `ext` has no dot, has extension
      `ext` lower-cased, whatever dots the stem holds. */
  lemma ExtensionOfDottedName(stem: string, ext: string)
    requires '.' !in ext
    ensures FileExtension(stem + "." + ext) == Js.ToLowerCase(ext)
  {
    var name := stem + "." + ext;
    assert name[|name| - |ext|..] == ext;
    assert name[|name| - |ext| - 1] == '.';
    AfterLastDotUnique(name, ext, AfterLastDot(name));
  }

  /** The default target format for an incoming file with (lower-cased)
      extension `ext`: `png` for a jpg, `jpg` for any other recognised image,
      and no suggestion otherwise. */
  function SuggestedFormat(ext: string): (r: Option<string>)
    ensures r.Some? <==> IsImageFile(ext)
    ensures r.Some? ==> InCatalog(r.value) && r.value != ext
    ensures r == Some("png") <==> ext == "jpg"
    ensures IsImageFile(ext) && ext != "jpg" ==> r == Some("jpg")
  {
    CatalogueValues("png");
    CatalogueValues("jpg");
    assert Js.ToLowerCase("jpg") == "jpg";
    if IsImageFile(ext) then Some(if ext == "jpg" then "png" else "jpg") else None
  }

  /** The suggestion for a file named `stem.ext`, stated on the extension as
      written: a jpg in any case gets png, any other recognised image gets
      jpg, anything else gets none. */
  lemma SuggestionForName(stem: string, ext: string)
    requires '.' !in ext
    ensures Js.ToLowerCase(ext) == "jpg" ==> SuggestedFormat(FileExtension(stem + "." + ext)) == Some("png")
    ensures (Js.ToLowerCase(ext) in RecognisedExtensions && Js.ToLowerCase(ext) != "jpg")
              ==> SuggestedFormat(FileExtension(stem + "." + ext)) == Some("jpg")
    ensures Js.ToLowerCase(ext) !in RecognisedExtensions ==> SuggestedFormat(FileExtension(stem + "." + ext)) == None
  {
    ExtensionOfDottedName(stem, ext);
    Js.ToLowerCaseNormalises(ext);
  }
}
