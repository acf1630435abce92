/**
 * How the component stores its four corners between runs: the `Data` record
 * written to the streaming-assets folder (corners flattened to a float
 * array), the file path it uses, and the PlayerPrefs string of eight
 * space-separated numbers.
 *
 * The binary formatter, the file system and the PlayerPrefs store are not
 * modelled: what a file holds arrives as a `FileContent` value, and the
 * float/string conversions are the parameters `format` and `parse`.
 */
module CornerPersistence {
  import opened Vectors
  import opened Wrappers
  import opened TextTokens

  // ---------------------------------------------------------------------
  // Flat float layout of a corner array

  /** Corner c's x at position 2c and its y at 2c+1. */
  function Flattened(cs: seq<Vec2>): (fs: seq<real>)
    ensures |fs| == 2 * |cs|
    decreases |cs|
  {
    if |cs| == 0 then []
    else Flattened(cs[..|cs| - 1]) + [cs[|cs| - 1].x, cs[|cs| - 1].y]
  }

  lemma {:induction false} FlattenedLayout(cs: seq<Vec2>)
    ensures forall c :: 0 <= c < |cs| ==> Flattened(cs)[2 * c] == cs[c].x && Flattened(cs)[2 * c + 1] == cs[c].y
    decreases |cs|
  {
    if |cs| > 0 {
      var front := cs[..|cs| - 1];
      FlattenedLayout(front);
      assert forall c :: 0 <= c < |front| ==> front[c] == cs[c];
    }
  }

  /** Pairs of consecutive floats read back as corners; an odd trailing float is dropped. */
  function Unflattened(fs: seq<real>): (cs: seq<Vec2>)
  {
    seq(|fs| / 2, c requires 0 <= c < |fs| / 2 => Vec2(fs[2 * c], fs[2 * c + 1]))
  }

  /** The number of corners read back from n floats, and each corner's two source positions. */
  lemma UnflattenedLayout(fs: seq<real>)
    ensures |Unflattened(fs)| == |fs| / 2
    ensures forall c :: 0 <= c < |fs| / 2 ==> Unflattened(fs)[c] == Vec2(fs[2 * c], fs[2 * c + 1])
  {
  }

  lemma UnflattenFlatten(cs: seq<Vec2>)
    ensures Unflattened(Flattened(cs)) == cs
  {
    FlattenedLayout(cs);
  }

  /** A float array laid out as corner c's x at 2c and y at 2c+1 is the flattened corners. */
  lemma {:induction false} LayoutIsFlattened(cs: seq<Vec2>, fs: seq<real>)
    requires |fs| == 2 * |cs|
    requires forall c :: 0 <= c < |cs| ==> fs[2 * c] == cs[c].x && fs[2 * c + 1] == cs[c].y
    ensures fs == Flattened(cs)
    decreases |cs|
  {
    if |cs| > 0 {
      var k := |cs| - 1;
      var front, frontFloats := cs[..k], fs[..2 * k];
      forall c | 0 <= c < k ensures frontFloats[2 * c] == front[c].x && frontFloats[2 * c + 1] == front[c].y {
        assert front[c] == cs[c];
      }
      LayoutIsFlattened(front, frontFloats);
      assert fs == frontFloats + [fs[2 * k], fs[2 * k + 1]];
    }
  }

  /** An even-length float array survives the round trip through corners. */
  lemma FlattenUnflatten(fs: seq<real>)
    requires |fs| % 2 == 0
    ensures Flattened(Unflattened(fs)) == fs
  {
    LayoutIsFlattened(Unflattened(fs), fs);
  }

  // ---------------------------------------------------------------------
  // Paths

  /** The file of one component: `<streamingAssets>/<type name>/<object name>.dat`. */
  function StreamingAssetPath(root: string, typeName: string, name: string): string
  {
    root + "/" + typeName + "/" + name + ".dat"
  }

  /** The directory Serialize makes sure exists: everything before the last '/'. */
  function DirectoryOf(path: string): (dir: string)
    requires '/' in path
    ensures |dir| < |path|
    ensures path == dir + "/" + path[|dir| + 1..]
    ensures '/' !in path[|dir| + 1..]
  {
    path[..LastIndexOf(path, '/')]
  }

  /** Every streaming-assets path has a directory part. */
  lemma AssetPathHasDirectory(root: string, typeName: string, name: string)
    ensures '/' in StreamingAssetPath(root, typeName, name)
  {
    assert StreamingAssetPath(root, typeName, name)[|root|] == '/';
  }

  /** For an object name without '/', the directory is the per-type folder. */
  lemma AssetDirectory(root: string, typeName: string, name: string)
    requires '/' !in name
    ensures '/' in StreamingAssetPath(root, typeName, name)
    ensures DirectoryOf(StreamingAssetPath(root, typeName, name)) == root + "/" + typeName
  {
    var folder := root + "/" + typeName;
    var file := name + ".dat";
    var path := StreamingAssetPath(root, typeName, name);
    assert path == folder + "/" + file;
    assert path[|folder|] == '/';
    assert '/' !in file;
    assert path[|folder| + 1..] == file;
    assert LastIndexOf(path, '/') == |folder|;
  }

  // ---------------------------------------------------------------------
  // The serialized record

  /** What the streaming-assets file turned out to hold when it was opened. */
  datatype FileContent =
    | Missing                        // File.Exists was false
    | Unreadable                     // opening or reading threw an IOException
    | Stored(floats: seq<real>)      // the record's float array

  /** The floats of the record Deserialize works on: an unreadable file yields a fresh, empty record. */
  function StoredFloats(file: FileContent): seq<real>
  {
    if file.Stored? then file.floats else []
  }

  /** The record written to disk: `corners` is not serialized, `flat` is its float image. */
  class Data {
    var corners: array<Vec2>
    var flat: array<real>

    constructor ()
      ensures corners.Length == 0 && flat.Length == 0
      ensures fresh(corners) && fresh(flat)
    {
      corners := new Vec2[0];
      flat := new real[0];
    }

    /** The conversion step of Serialize: a fresh float array holding every corner's x and y. */
    method Flatten()
      modifies this
      ensures corners == old(corners)
      ensures fresh(flat) && flat[..] == Flattened(corners[..])
    {
      var a := new real[corners.Length * 2];
      for c := 0 to corners.Length
        modifies a
        invariant forall k :: 0 <= k < c ==> a[2 * k] == corners[k].x && a[2 * k + 1] == corners[k].y
      {
        for cc := 0 to 2
          modifies a
          invariant forall k :: 0 <= k < c ==> a[2 * k] == corners[k].x && a[2 * k + 1] == corners[k].y
          invariant cc >= 1 ==> a[2 * c] == corners[c].x
          invariant cc >= 2 ==> a[2 * c + 1] == corners[c].y
        {
          a[c * 2 + cc] := if cc == 0 then corners[c].x else corners[c].y;
        }
      }
      LayoutIsFlattened(corners[..], a[..]);
      flat := a;
    }

    /** The conversion step of Deserialize: a fresh corner array read back from the floats. */
    method Unflatten()
      modifies this
      ensures flat == old(flat)
      ensures fresh(corners) && corners[..] == Unflattened(flat[..])
    {
      var a := new Vec2[flat.Length / 2];
      for c := 0 to a.Length
        modifies a
        invariant forall k :: 0 <= k < c ==> a[k] == Unflattened(flat[..])[k]
      {
        a[c] := Vec2(flat[c * 2], flat[c * 2 + 1]);
      }
      corners := a;
    }

    /**
     * Serialize without the file system: the directory it ensures, and the
     * float array it writes.
     */
    method Serialize(filePath: string) returns (directory: string, written: seq<real>)
      requires '/' in filePath
      modifies this
      ensures directory == DirectoryOf(filePath)
      ensures corners == old(corners) && fresh(flat)
      ensures written == flat[..] == Flattened(corners[..])
    {
      directory := DirectoryOf(filePath);
      Flatten();
      written := flat[..];
    }

    /** Deserialize: null for a missing file, otherwise a fresh record with its corners rebuilt. */
    static method Deserialize(file: FileContent) returns (d: Data?)
      ensures d == null <==> file.Missing?
      ensures d != null ==> fresh(d) && fresh(d.corners)
      ensures d != null ==> d.flat[..] == StoredFloats(file) && d.corners[..] == Unflattened(StoredFloats(file))
    {
      if file.Missing? {
        return null;
      }
      d := new Data();
      if file.Stored? {
        var fs := file.floats;
        d.flat := new real[|fs|](i requires 0 <= i < |fs| => fs[i]);
      }
      d.Unflatten();
    }
  }

  /** Saved four corners come back unchanged from the record. */
  lemma StoredCornersRoundTrip(cs: seq<Vec2>)
    ensures Unflattened(StoredFloats(Stored(Flattened(cs)))) == cs
  {
    UnflattenFlatten(cs);
  }

  // ---------------------------------------------------------------------
  // Accepting a loaded record

  /** The streaming-assets load as written: any non-empty corner array is taken. */
  predicate AcceptsLoadedAsWritten(corners: seq<Vec2>)
  {
    |corners| != 0
  }

  /** A record holding six floats gives three corners, which the load as written takes. */
  lemma ThreeCornerRecordAccepted()
    ensures var cs := Unflattened([0.0, 0.0, 0.0, 1.0, 1.0, 1.0]);
      AcceptsLoadedAsWritten(cs) && |cs| == 3
  {
  }

  /** The corrected load: only a record with exactly the component's four corners is taken. */
  predicate AcceptsLoaded(corners: seq<Vec2>)
  {
    |corners| == 4
  }

  /** The corrected rule takes exactly the records of 8 or 9 floats, and every four-corner save. */
  lemma AcceptedRecords(fs: seq<real>, cs: seq<Vec2>)
    ensures AcceptsLoaded(Unflattened(fs)) <==> |fs| == 8 || |fs| == 9
    ensures |cs| == 4 ==> AcceptsLoaded(Unflattened(Flattened(cs)))
  {
    UnflattenFlatten(cs);
  }

  // ---------------------------------------------------------------------
  // PlayerPrefs string

  /** The eight numbers of the save string, x then y for each corner, each through `format`. */
  function CornerTokens(cs: seq<Vec2>, format: real -> string): (tokens: seq<string>)
    ensures |tokens| == 2 * |cs|
  {
    var fs := Flattened(cs);
    seq(|fs|, i requires 0 <= i < |fs| => format(fs[i]))
  }

  /** The save loop: "x0 y0 x1 y1 x2 y2 x3 y3" for the first four corners. */
  method EncodeCorners(cs: seq<Vec2>, format: real -> string) returns (values: string)
    requires |cs| >= 4
    ensures values == Join(CornerTokens(cs[..4], format), ' ')
  {
    values := "";
    for c := 0 to 4
      invariant c > 0 ==> values == Join(CornerTokens(cs[..c], format), ' ')
      invariant c == 0 ==> values == ""
    {
      var x, y := format(cs[c].x), format(cs[c].y);
      var before := CornerTokens(cs[..c], format);
      var after := CornerTokens(cs[..c + 1], format);
      assert cs[..c + 1][..c] == cs[..c];
      if c == 0 {
        assert after == [x, y];
        assert Join(after, ' ') == x + [' '] + y;
      } else {
        assert after == before + [x] + [y];
        JoinSnoc(before, x, ' ');
        JoinSnoc(before + [x], y, ' ');
      }
      values := values + (if c == 0 then "" else " ") + x + " " + y;
    }
  }

  /** The load: split on ' ', and only eight tokens give four corners. */
  function DecodeCorners(s: string, parse: string -> real): (r: Option<seq<Vec2>>)
    ensures r.Some? <==> |Split(s, ' ')| == 8
    ensures r.Some? ==> |r.value| == 4
  {
    var tokens := Split(s, ' ');
    if |tokens| == 8 then Some(ParsedCorners(tokens, parse)) else None
  }

  /** Corner c from tokens 2c and 2c+1. */
  function ParsedCorners(tokens: seq<string>, parse: string -> real): seq<Vec2>
    requires |tokens| == 8
  {
    seq(4, c requires 0 <= c < 4 => Vec2(parse(tokens[2 * c]), parse(tokens[2 * c + 1])))
  }

  /** Parsing the tokens of four corners gives them back when parsing undoes the format. */
  lemma ParseTokens(cs: seq<Vec2>, format: real -> string, parse: string -> real)
    requires |cs| == 4
    requires forall v :: parse(format(v)) == v
    ensures ParsedCorners(CornerTokens(cs, format), parse) == cs
  {
    var tokens := CornerTokens(cs, format);
    var fs := Flattened(cs);
    FlattenedLayout(cs);
    var r := ParsedCorners(tokens, parse);
    forall c | 0 <= c < 4 ensures r[c] == cs[c] {
      assert tokens[2 * c] == format(fs[2 * c]) && fs[2 * c] == cs[c].x;
      assert tokens[2 * c + 1] == format(fs[2 * c + 1]) && fs[2 * c + 1] == cs[c].y;
    }
  }

  /**
   * Saving then loading gives back the four corners, provided the number
   * format never produces a space and parsing undoes it.
   */
  lemma PlayerPrefsRoundTrip(cs: seq<Vec2>, format: real -> string, parse: string -> real)
    requires |cs| == 4
    requires forall v :: ' ' !in format(v)
    requires forall v :: parse(format(v)) == v
    ensures DecodeCorners(Join(CornerTokens(cs, format), ' '), parse) == Some(cs)
  {
    var tokens := CornerTokens(cs, format);
    forall k | 0 <= k < |tokens| ensures ' ' !in tokens[k] {
      var v := Flattened(cs)[k];
      assert ' ' !in format(v);
      assert tokens[k] == format(v);
    }
    SplitJoin(tokens, ' ');
    ParseTokens(cs, format, parse);
  }
}
