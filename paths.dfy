/**
 * The image path of a segment: `os.path.splitext(sound)[0] + '.png'`,
 * with POSIX `splitext` semantics.
 */
module Paths {
  import opened Strings

  const Separator: char := '/'
  const ExtSeparator: char := '.'
  const ImageExtension: string := ".png"

  /** Some character of `p[lo..hi]` is not a dot. */
  predicate HasNonDot(p: string, lo: int, hi: int)
    requires 0 <= lo && hi <= |p|
  {
    exists j :: lo <= j < hi && p[j] != ExtSeparator
  }

  /**
   * `os.path.splitext(p)`: splits at the last dot of the last path component,
   * unless every character of that component before the dot is a dot too.
   */
  function SplitExt(p: string): (parts: (string, string))
    ensures parts.0 + parts.1 == p
    ensures parts.1 == "" || (parts.1[0] == ExtSeparator && Separator !in parts.1)
  {
    var sep := LastIndex(p, Separator);
    var dot := LastIndex(p, ExtSeparator);
    if dot > sep && HasNonDot(p, sep + 1, dot) then
      assert p[..dot] + p[dot..] == p;
      (p[..dot], p[dot..])
    else (p, "")
  }

  /**
   * `p` has an extension: a dot with no slash and no further dot after it,
   * preceded within its last component by a character that is not a dot.
   */
  ghost predicate HasExtension(p: string) {
    exists j, i :: 0 <= j < i < |p| && p[i] == ExtSeparator && p[j] != ExtSeparator &&
      Separator !in p[j..] && ExtSeparator !in p[i + 1..]
  }

  /** There is an extension exactly when `HasExtension` holds, and it is a lone trailing `.xyz`. */
  lemma SplitExtParts(p: string)
    ensures SplitExt(p).1 != "" <==> HasExtension(p)
    ensures SplitExt(p).1 != "" ==>
      SplitExt(p).1[0] == ExtSeparator && ExtSeparator !in SplitExt(p).1[1..] && Separator !in SplitExt(p).1
  {
    var sep := LastIndex(p, Separator);
    var dot := LastIndex(p, ExtSeparator);
    if HasExtension(p) {
      var j, i :| 0 <= j < i < |p| && p[i] == ExtSeparator && p[j] != ExtSeparator &&
        Separator !in p[j..] && ExtSeparator !in p[i + 1..];
      assert dot == i;
      assert sep < j;
      assert HasNonDot(p, sep + 1, dot);
    }
    if dot > sep && HasNonDot(p, sep + 1, dot) {
      assert p[..dot] + p[dot..] == p;
      var j :| sep + 1 <= j < dot && p[j] != ExtSeparator;
      assert Separator !in p[j..] by {
        forall k | j <= k < |p| ensures p[k] != Separator {
        }
      }
      assert ExtSeparator !in p[dot + 1..] by {
        forall k | dot + 1 <= k < |p| ensures p[k] != ExtSeparator {
        }
      }
      assert p[dot..][1..] == p[dot + 1..];
    }
  }

  /** The spectrogram path derived from a sound path: a prefix of it followed by `.png`. */
  function ImagePath(sound: string): (image: string)
    ensures |image| >= |ImageExtension|
    ensures image[|image| - |ImageExtension|..] == ImageExtension
    ensures image[..|image| - |ImageExtension|] <= sound
  {
    var root := SplitExt(sound).0;
    assert (root + ImageExtension)[..|root|] == root;
    root + ImageExtension
  }

  /**
   * The image path keeps the sound path's directory and base name and ends
   * in `.png`: it is the sound path without its extension, if it has one,
   * followed by `.png`.
   */
  lemma ImagePathShape(sound: string)
    ensures HasExtension(sound) ==>
      exists k :: 0 <= k < |sound| && sound[k] == ExtSeparator &&
        Separator !in sound[k..] && ExtSeparator !in sound[k + 1..] &&
        ImagePath(sound) == sound[..k] + ImageExtension
    ensures !HasExtension(sound) ==> ImagePath(sound) == sound + ImageExtension
  {
    SplitExtParts(sound);
    var (root, ext) := SplitExt(sound);
    if ext != "" {
      var k := |root|;
      assert sound[..k] == root;
      assert sound[k..] == ext;
      assert sound[k] == ext[0];
      assert sound[k + 1..] == ext[1..];
    }
  }

  /** A sound file's extension is replaced. */
  lemma ImagePathReplacesExtension()
    ensures ImagePath("../segments/Homo_sapiens/a.wav") == "../segments/Homo_sapiens/a.png"
  {
    var dir, file := "../segments/Homo_sapiens/", "a.wav";
    assert dir + file == "../segments/Homo_sapiens/a.wav";
    ImagePathUnderDirectory(dir, file);
    assert file[0] == 'a' && file[1] == '.' && file[2] == 'w' && file[3] == 'a' && file[4] == 'v';
    var sep, dot := LastIndex(file, Separator), LastIndex(file, ExtSeparator);
    assert sep == -1;
    assert dot == 1;
    assert HasNonDot(file, sep + 1, dot);
    assert file[..1] == "a" && file[1..] == ".wav";
  }

  /** A dot in a directory name is not an extension. */
  lemma ImagePathDirectoryDot()
    ensures ImagePath("dir.d/noext") == "dir.d/noext.png"
  {
    var q := "dir.d/noext";
    assert q[5] == Separator && q[3] == ExtSeparator;
  }

  /** A leading dot of the file name is not an extension. */
  lemma ImagePathLeadingDot()
    ensures ImagePath("dir/.hidden") == "dir/.hidden.png"
  {
    var h := "dir/.hidden";
    assert h[3] == Separator && h[4] == ExtSeparator;
    assert !HasNonDot(h, 4, 4);
  }

  /**
   * `splitext` only looks at the last path component, so a directory put in
   * front of a path is kept in the root and the extension is unchanged.
   */
  lemma SplitExtUnderDirectory(dir: string, file: string)
    requires |dir| > 0 && dir[|dir| - 1] == Separator
    ensures SplitExt(dir + file) == (dir + SplitExt(file).0, SplitExt(file).1)
  {
    var p, n := dir + file, |dir|;
    LastIndexAppend(dir, file, Separator);
    LastIndexAppend(dir, file, ExtSeparator);
    var sepF, dotF := LastIndex(file, Separator), LastIndex(file, ExtSeparator);
    assert LastIndex(dir, Separator) == n - 1;
    assert LastIndex(p, Separator) == n + sepF;
    if dotF >= 0 {
      assert LastIndex(p, ExtSeparator) == n + dotF;
      if dotF > sepF {
        assert HasNonDot(p, n + sepF + 1, n + dotF) <==> HasNonDot(file, sepF + 1, dotF) by {
          if HasNonDot(file, sepF + 1, dotF) {
            var j :| sepF + 1 <= j < dotF && file[j] != ExtSeparator;
            assert p[n + j] == file[j];
          }
          if HasNonDot(p, n + sepF + 1, n + dotF) {
            var j :| n + sepF + 1 <= j < n + dotF && p[j] != ExtSeparator;
            assert file[j - n] == p[j];
          }
        }
        assert p[..n + dotF] == dir + file[..dotF];
        assert p[n + dotF..] == file[dotF..];
      }
    } else {
      assert LastIndex(p, ExtSeparator) < n - 1;
    }
  }

  /** The image path of a file under a directory is that directory plus the file's image path. */
  lemma ImagePathUnderDirectory(dir: string, file: string)
    requires |dir| > 0 && dir[|dir| - 1] == Separator
    ensures ImagePath(dir + file) == dir + ImagePath(file)
  {
    SplitExtUnderDirectory(dir, file);
  }
}
