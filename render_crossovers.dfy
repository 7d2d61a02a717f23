/** The compositing plan of render_crossovers: for every crossover group, the
    downloads, the world files, and the raster commands that merge the
    Hyperion browse image with its Planet crossovers.

    Nothing is executed. Each effect the script performs becomes an `Action`,
    and the script becomes the sequence of actions it performs, in order. If
    it raises, the sequence ends at that point and carries the exception
    (`Trace`). The things the script only observes are parameters:
      - the width of a saved image (`widthOf`);
      - Python's str of a float (`show`);
      - the Planet API key (`apiKey`). */
module RenderCrossovers {
  import opened Strings
  import opened DateTimes
  import opened SearchPlanet
  import opened FindCrossovers

  /** The width in pixels requested for every Planet thumbnail. */
  const BrowseWidth: nat := 500

  datatype Action =
    | UrlRetrieve(url: string, path: string)          // urllib.urlretrieve(url, path)
    | ExtractAll(archive: string, directory: string)  // ZipFile(archive).extractall(directory)
    | SaveBrowse(url: string, path: string)           // requests.get(url), then Image.save(path)
    | WriteFile(path: string, text: string)           // open(path, "w").write(text)
    | Call(directory: string, argv: seq<string>)      // subprocess.call(argv) run in directory

  /** The actions performed, and the exception that ended the run early, if any. */
  datatype Trace = Trace(actions: seq<Action>, failure: Option<Error>)

  /** Run `t`, then, unless `t` raised, run `next`. */
  function AndThen(t: Trace, next: Trace): Trace {
    if t.failure.Some? then t else Trace(t.actions + next.actions, next.failure)
  }

  // ---------------------------------------------------------------------------
  // Resolution and world file

  /** calculate_new_resolution: the ground size of a pixel once an image
      `oldWidth` pixels wide, `oldResolution` per pixel, is resampled to
      `newWidth` pixels. Dividing by a zero width raises. */
  function NewResolution(newWidth: int, oldWidth: int, oldResolution: real): (r: Result<real>)
    ensures r.Err? <==> newWidth == 0
    ensures r.Err? ==> r.error == ZeroDivisionError
    ensures r.Ok? ==> r.value * newWidth as real == oldResolution * oldWidth as real
  {
    if newWidth == 0 then Err(ZeroDivisionError)
    else
      var ratio := oldWidth as real / newWidth as real;
      assert ratio * newWidth as real == oldWidth as real;
      Ok(oldResolution * ratio)
  }

  lemma Cancel(a: real, b: real, w: real)
    requires w != 0.0 && a * w == b * w
    ensures a == b
  {
    assert (a - b) * w == a * w - b * w;
  }

  /** The ground-extent equation determines the resolution: it is the only
      value that satisfies it, and an unchanged width keeps it. */
  lemma NewResolutionUnique(newWidth: int, oldWidth: int, oldResolution: real, r: real)
    requires newWidth != 0
    ensures r * newWidth as real == oldResolution * oldWidth as real
        <==> NewResolution(newWidth, oldWidth, oldResolution) == Ok(r)
    ensures newWidth == oldWidth ==> NewResolution(newWidth, oldWidth, oldResolution) == Ok(oldResolution)
  {
    var v := NewResolution(newWidth, oldWidth, oldResolution).value;
    var w := newWidth as real;
    if r * w == oldResolution * oldWidth as real {
      Cancel(r, v, w);
    }
    if newWidth == oldWidth {
      Cancel(v, oldResolution, w);
    }
  }

  /** The six values of a world file, in file order: pixel X size, the two
      rotation terms, the negative pixel Y size, and the ground position of the
      centre of the upper-left pixel. */
  function WorldFileValues(resolution: real, x: real, y: real): seq<real> {
    [resolution, 0.0, 0.0, -resolution, x, y]
  }

  /** The affine map a world file defines: the file holds A, D, B, E, C, F and
      pixel (column, row) lies at ground (A*column + B*row + C, D*column + E*row + F). */
  function PixelToGround(w: seq<real>, column: real, row: real): (real, real)
    requires |w| == 6
  {
    (w[0] * column + w[2] * row + w[4], w[1] * column + w[3] * row + w[5])
  }

  /** The world file written for a crossover is north-up with square pixels:
      a column step moves `resolution` east, a row step `resolution` south,
      and pixel (0, 0) lies at (x, y). For a non-zero resolution every ground
      point (gx, gy) is the image of exactly one pixel position. */
  lemma WorldFileGeoreference(resolution: real, x: real, y: real, column: real, row: real,
                              gx: real, gy: real)
    ensures PixelToGround(WorldFileValues(resolution, x, y), column, row)
         == (x + resolution * column, y - resolution * row)
    ensures resolution != 0.0 ==>
      PixelToGround(WorldFileValues(resolution, x, y), (gx - x) / resolution, (y - gy) / resolution)
        == (gx, gy)
    ensures resolution != 0.0 && PixelToGround(WorldFileValues(resolution, x, y), column, row) == (gx, gy)
      ==> column == (gx - x) / resolution && row == (y - gy) / resolution
  {
    var w := WorldFileValues(resolution, x, y);
    assert w[0] == resolution && w[1] == 0.0 && w[2] == 0.0 && w[3] == -resolution;
    assert w[4] == x && w[5] == y;
    var p := PixelToGround(w, column, row);
    assert p.0 == resolution * column + 0.0 * row + x;
    assert p.1 == 0.0 * column + (-resolution) * row + y;
    assert (-resolution) * row == -(resolution * row);
    if resolution != 0.0 {
      var c := (gx - x) / resolution;
      var r := (y - gy) / resolution;
      var q := PixelToGround(w, c, r);
      assert q.0 == resolution * c + 0.0 * r + x;
      assert q.1 == 0.0 * c + (-resolution) * r + y;
      assert resolution * c == gx - x;
      assert (-resolution) * r == -(resolution * r);
      assert resolution * r == y - gy;
    }
  }

  /** A thumbnail resampled to `newWidth` pixels, georeferenced with the new
      resolution, spans the same ground width as the full scene of `oldWidth`
      pixels: its right edge is where the scene's right edge is. */
  lemma ThumbnailExtent(newWidth: int, oldWidth: int, oldResolution: real, x: real, y: real)
    requires newWidth != 0
    ensures var r := NewResolution(newWidth, oldWidth, oldResolution).value;
      PixelToGround(WorldFileValues(r, x, y), newWidth as real, 0.0).0
        == x + oldResolution * oldWidth as real
  {
    var r := NewResolution(newWidth, oldWidth, oldResolution).value;
    WorldFileGeoreference(r, x, y, newWidth as real, 0.0, x, y);
  }

  /** Each value as str prints it. */
  function Shown(values: seq<real>, show: real -> string): (lines: seq<string>)
    ensures |lines| == |values|
    ensures forall i :: 0 <= i < |values| ==> lines[i] == show(values[i])
  {
    seq(|values|, i requires 0 <= i < |values| => show(values[i]))
  }

  /** The text build_worldfile writes: the values joined by newlines. */
  function WorldFileText(values: seq<real>, show: real -> string): string {
    Join(Shown(values, show), '\n')
  }

  /** Read line by line, a world file gives back one line per value, each the
      value as printed. */
  lemma WorldFileLines(values: seq<real>, show: real -> string)
    requires |values| >= 1
    requires forall i :: 0 <= i < |values| ==> '\n' !in show(values[i])
    ensures Split(WorldFileText(values, show), '\n') == Shown(values, show)
  {
    var lines := Shown(values, show);
    forall i | 0 <= i < |lines| ensures '\n' !in lines[i] {
      assert lines[i] == show(values[i]);
    }
    SplitJoin(lines, '\n');
  }

  /** A world file ends with the last value as printed, so it does not end with
      a newline when that value prints as a non-empty line. */
  lemma WorldFileEnd(values: seq<real>, show: real -> string)
    requires |values| >= 1
    requires '\n' !in show(values[|values| - 1])
    ensures |WorldFileText(values, show)| >= |show(values[|values| - 1])|
    ensures WorldFileText(values, show)[|WorldFileText(values, show)| - |show(values[|values| - 1])|..]
         == show(values[|values| - 1])
    ensures |show(values[|values| - 1])| > 0 ==>
      WorldFileText(values, show)[|WorldFileText(values, show)| - 1] != '\n'
  {
    var lines := Shown(values, show);
    assert lines[|lines| - 1] == show(values[|values| - 1]);
    JoinEndsWithLast(lines, '\n');
    JoinNoTrailing(lines, '\n');
  }

  /** The six world-file lines of a crossover; the rotation lines are the
      printed zero. */
  lemma WorldFileSixLines(resolution: real, x: real, y: real, show: real -> string)
    requires forall v :: '\n' !in show(v)
    ensures Split(WorldFileText(WorldFileValues(resolution, x, y), show), '\n')
         == [show(resolution), show(0.0), show(0.0), show(-resolution), show(x), show(y)]
  {
    var values := WorldFileValues(resolution, x, y);
    forall i | 0 <= i < |values| ensures '\n' !in show(values[i]) {
      var v := values[i];
      assert '\n' !in show(v);
    }
    WorldFileLines(values, show);
    var lines := Shown(values, show);
    assert lines == [show(resolution), show(0.0), show(0.0), show(-resolution), show(x), show(y)];
  }

  /** build_worldfile: the file is written at `outputPath`, and when no printed
      value holds a newline it reads back as the six lines of the format. */
  function BuildWorldFile(resolution: real, x: real, y: real, outputPath: string,
                          show: real -> string): (a: Action)
    ensures a.WriteFile? && a.path == outputPath
    ensures (forall v :: '\n' !in show(v)) ==>
      Split(a.text, '\n') == [show(resolution), show(0.0), show(0.0), show(-resolution), show(x), show(y)]
  {
    assert (forall v :: '\n' !in show(v)) ==>
      Split(WorldFileText(WorldFileValues(resolution, x, y), show), '\n')
        == [show(resolution), show(0.0), show(0.0), show(-resolution), show(x), show(y)] by {
      if forall v :: '\n' !in show(v) {
        WorldFileSixLines(resolution, x, y, show);
      }
    }
    WriteFile(outputPath, WorldFileText(WorldFileValues(resolution, x, y), show))
  }

  // ---------------------------------------------------------------------------
  // Downloads and file names

  function HyperionBrowseUrl(id: string): string {
    "https://earthexplorer.usgs.gov//browse/gisready/eo-1/hyp/" + id
  }

  /** download_hyperion_browse: fetch the zipped browse image and unpack it
      into the scene's directory. The archive is saved under the scene's id in
      that directory, and that same archive is the one unpacked there. */
  function DownloadHyperionBrowse(id: string, outputDir: string): (actions: seq<Action>)
    ensures |actions| == 2
    ensures actions[0].UrlRetrieve? && actions[0].url == HyperionBrowseUrl(id)
    ensures actions[0].path == outputDir + "/" + id + ".zip"
    ensures actions[1].ExtractAll? && actions[1].archive == actions[0].path
    ensures actions[1].directory == outputDir
  {
    var path := outputDir + "/" + id + ".zip";
    [UrlRetrieve(HyperionBrowseUrl(id), path), ExtractAll(path, outputDir)]
  }

  function PlanetBrowseUrl(itemType: string, itemId: string, apiKey: string, width: nat): string {
    "https://tiles0.planet.com/v1/experimental/tiles/" + itemType + "/" + itemId
      + "/thumb?api_key=" + apiKey + "&width=" + NatToString(width)
  }

  /** The stem every file of one Planet item is named by. */
  function ItemStem(itemType: string, itemId: string): string {
    itemType + "_" + itemId
  }

  /** Where a Planet thumbnail is saved, and where the main loop reopens it. */
  function BrowsePath(dir: string, itemType: string, itemId: string): string {
    dir + "/" + ItemStem(itemType, itemId) + ".png"
  }

  function WorldFilePath(dir: string, itemType: string, itemId: string): string {
    dir + "/" + ItemStem(itemType, itemId) + ".wld"
  }

  /** download_planet_browse: the fetch-and-save, and the path it returns. */
  function DownloadPlanetBrowse(itemType: string, itemId: string, apiKey: string, width: nat,
                                outputDir: string): (Action, string)
  {
    var url := PlanetBrowseUrl(itemType, itemId, apiKey, width);
    var path := BrowsePath(outputDir, itemType, itemId);
    (SaveBrowse(url, path), path)
  }

  /** The thumbnail download always saves the image at the path it returns. */
  lemma DownloadPlanetBrowseSaves(itemType: string, itemId: string, apiKey: string, width: nat,
                                  outputDir: string)
    ensures var (action, path) := DownloadPlanetBrowse(itemType, itemId, apiKey, width, outputDir);
      && action.SaveBrowse? && action.path == path
      && path == outputDir + "/" + itemType + "_" + itemId + ".png"
      && action.url == "https://tiles0.planet.com/v1/experimental/tiles/" + itemType + "/" + itemId
           + "/thumb?api_key=" + apiKey + "&width=" + NatToString(width)
  {
  }

  /** The main loop asks for thumbnails 500 pixels wide. */
  lemma CrossoverFetchUrl(dir: string, apiKey: string, c: Crossover)
    ensures CrossoverFetch(dir, apiKey, c).SaveBrowse?
    ensures CrossoverFetch(dir, apiKey, c).url
         == "https://tiles0.planet.com/v1/experimental/tiles/" + c.properties.itemType + "/" + c.id
              + "/thumb?api_key=" + apiKey + "&width=500"
  {
    assert Pad(5, 0) == "5";
    assert Pad(50, 0) == "50";
    assert NatToString(500) == "500";
  }

  // ---------------------------------------------------------------------------
  // merge_images

  /** The base name of a Hyperion scene: its id up to the first "_". */
  function BaseName(hyperionId: string): string {
    BeforeFirst(hyperionId, '_')
  }

  function TransparentTif(id: string): string {
    "/tmp/" + id + "_transparent.tif"
  }

  function GeoTif(id: string): string {
    "/tmp/" + id + "_geotiff.tif"
  }

  function MergedName(base: string): string {
    base + "_merged.tiff"
  }

  /** A command line as the script builds it: words separated by single spaces. */
  function CommandLine(words: seq<string>): string {
    Join(words, ' ')
  }

  /** convert <base>.jpg -transparent black <tif> */
  function KeyBlackCommand(jpg: string, tif: string): string {
    CommandLine(["convert", jpg, "-transparent", "black", tif])
  }

  /** convert -trim <png> <tif> */
  function TrimCommand(png: string, tif: string): string {
    CommandLine(["convert", "-trim", png, tif])
  }

  /** geotifcp -e <wld> <tif> <geotif> */
  function GeotifcpCommand(wld: string, tif: string, geoTif: string): string {
    CommandLine(["geotifcp", "-e", wld, tif, geoTif])
  }

  /** rio merge <images joined by spaces> --output <output> */
  function RioMergeCommand(images: seq<string>, output: string): string {
    CommandLine(["rio", "merge"] + images + ["--output", output])
  }

  /** The two commands that key and georeference the base image. */
  function BaseCommands(base: string): seq<string> {
    [KeyBlackCommand(base + ".jpg", TransparentTif(base)),
     GeotifcpCommand(base + ".wld", TransparentTif(base), GeoTif(base))]
  }

  /** The two commands that key and georeference one crossover. */
  function CrossoverCommands(c: Crossover): seq<string> {
    var stem := ItemStem(c.properties.itemType, c.id);
    [TrimCommand(stem + ".png", TransparentTif(c.id)),
     GeotifcpCommand(stem + ".wld", TransparentTif(c.id), GeoTif(c.id))]
  }

  /** The commands of the crossover loop, crossover by crossover. */
  function CandidateCommands(crossovers: seq<Crossover>): seq<string>
    decreases |crossovers|
  {
    if |crossovers| == 0 then []
    else CandidateCommands(crossovers[..|crossovers| - 1]) + CrossoverCommands(crossovers[|crossovers| - 1])
  }

  /** The layers the crossover loop adds, crossover by crossover. */
  function CandidateLayers(crossovers: seq<Crossover>): seq<string>
    decreases |crossovers|
  {
    if |crossovers| == 0 then []
    else CandidateLayers(crossovers[..|crossovers| - 1]) + [GeoTif(crossovers[|crossovers| - 1].id)]
  }

  /** The layers handed to the merge: the base image first. */
  function MergeLayers(hyperionId: string, crossovers: seq<Crossover>): seq<string> {
    [GeoTif(BaseName(hyperionId))] + CandidateLayers(crossovers)
  }

  /** Every command merge_images runs, in order. */
  function MergeCommands(hyperionId: string, crossovers: seq<Crossover>): seq<string> {
    var base := BaseName(hyperionId);
    BaseCommands(base) + CandidateCommands(crossovers)
      + [RioMergeCommand(MergeLayers(hyperionId, crossovers), MergedName(base))]
  }

  /** Each command split on spaces and run in `dir`. */
  function CallsOf(dir: string, cmds: seq<string>): seq<Action>
    decreases |cmds|
  {
    if |cmds| == 0 then []
    else CallsOf(dir, cmds[..|cmds| - 1]) + [Call(dir, Split(cmds[|cmds| - 1], ' '))]
  }

  /** The effects of merge_images. */
  function MergePlan(itemOutputDir: string, hyperionId: string, crossovers: seq<Crossover>)
    : seq<Action>
  {
    CallsOf(itemOutputDir, MergeCommands(hyperionId, crossovers))
  }

  /** merge_images. */
  method MergeImages(itemOutputDir: string, hyperionId: string, crossovers: seq<Crossover>)
    returns (calls: seq<Action>)
    ensures calls == MergePlan(itemOutputDir, hyperionId, crossovers)
  {
    var base := BaseName(hyperionId);
    var cmds: seq<string> := [];
    var hyperionTif := TransparentTif(base);
    var hyperionGeoTif := GeoTif(base);
    cmds := cmds + [KeyBlackCommand(base + ".jpg", hyperionTif)];
    cmds := cmds + [GeotifcpCommand(base + ".wld", hyperionTif, hyperionGeoTif)];
    var images := [hyperionGeoTif];
    var i := 0;
    while i < |crossovers|
      invariant 0 <= i <= |crossovers|
      invariant cmds == BaseCommands(base) + CandidateCommands(crossovers[..i])
      invariant images == [GeoTif(base)] + CandidateLayers(crossovers[..i])
    {
      var planetId := crossovers[i].id;
      var itemType := crossovers[i].properties.itemType;
      var planetTif := TransparentTif(planetId);
      var planetGeoTif := GeoTif(planetId);
      assert crossovers[..i + 1][..i] == crossovers[..i];
      cmds := cmds + [TrimCommand(ItemStem(itemType, planetId) + ".png", planetTif)];
      cmds := cmds + [GeotifcpCommand(ItemStem(itemType, planetId) + ".wld", planetTif, planetGeoTif)];
      images := images + [planetGeoTif];
      i := i + 1;
    }
    assert crossovers[..i] == crossovers;
    cmds := cmds + [RioMergeCommand(images, MergedName(base))];
    calls := [];
    var k := 0;
    while k < |cmds|
      invariant 0 <= k <= |cmds|
      invariant calls == CallsOf(itemOutputDir, cmds[..k])
    {
      assert cmds[..k + 1][..k] == cmds[..k];
      calls := calls + [Call(itemOutputDir, Split(cmds[k], ' '))];
      k := k + 1;
    }
    assert cmds[..k] == cmds;
  }

  lemma {:induction false} CandidateCommandsSpec(crossovers: seq<Crossover>)
    ensures |CandidateCommands(crossovers)| == 2 * |crossovers|
    ensures forall k :: 0 <= k < |crossovers| ==>
      CandidateCommands(crossovers)[2 * k] == CrossoverCommands(crossovers[k])[0]
      && CandidateCommands(crossovers)[2 * k + 1] == CrossoverCommands(crossovers[k])[1]
    decreases |crossovers|
  {
    if |crossovers| > 0 {
      var front := crossovers[..|crossovers| - 1];
      CandidateCommandsSpec(front);
      forall k | 0 <= k < |front| ensures front[k] == crossovers[k] { }
    }
  }

  lemma {:induction false} CandidateLayersSpec(crossovers: seq<Crossover>)
    ensures |CandidateLayers(crossovers)| == |crossovers|
    ensures forall k :: 0 <= k < |crossovers| ==> CandidateLayers(crossovers)[k] == GeoTif(crossovers[k].id)
    decreases |crossovers|
  {
    if |crossovers| > 0 {
      var front := crossovers[..|crossovers| - 1];
      CandidateLayersSpec(front);
      forall k | 0 <= k < |front| ensures front[k] == crossovers[k] { }
    }
  }

  lemma {:induction false} CallsOfSpec(dir: string, cmds: seq<string>)
    ensures |CallsOf(dir, cmds)| == |cmds|
    ensures forall k :: 0 <= k < |cmds| ==> CallsOf(dir, cmds)[k] == Call(dir, Split(cmds[k], ' '))
    decreases |cmds|
  {
    if |cmds| > 0 {
      var front := cmds[..|cmds| - 1];
      CallsOfSpec(dir, front);
      forall k | 0 <= k < |front| ensures front[k] == cmds[k] { }
    }
  }

  /** The merge layers are the base image followed by one layer per crossover,
      in crossover order, so later crossovers are painted over earlier ones. */
  lemma MergeLayersSpec(hyperionId: string, crossovers: seq<Crossover>)
    ensures |MergeLayers(hyperionId, crossovers)| == 1 + |crossovers|
    ensures MergeLayers(hyperionId, crossovers)[0] == GeoTif(BaseName(hyperionId))
    ensures forall k :: 0 <= k < |crossovers| ==>
      MergeLayers(hyperionId, crossovers)[k + 1] == GeoTif(crossovers[k].id)
  {
    CandidateLayersSpec(crossovers);
  }

  /** The command list: two base commands, then two commands per crossover in
      order, each convert directly before its geotifcp, and the merge last. */
  lemma MergeCommandsSpec(hyperionId: string, crossovers: seq<Crossover>)
    ensures var cmds := MergeCommands(hyperionId, crossovers);
      var base := BaseName(hyperionId);
      && |cmds| == 2 + 2 * |crossovers| + 1
      && cmds[0] == KeyBlackCommand(base + ".jpg", TransparentTif(base))
      && cmds[1] == GeotifcpCommand(base + ".wld", TransparentTif(base), GeoTif(base))
      && (forall k :: 0 <= k < |crossovers| ==>
            && cmds[2 + 2 * k] == CrossoverCommands(crossovers[k])[0]
            && cmds[3 + 2 * k] == CrossoverCommands(crossovers[k])[1])
      && cmds[|cmds| - 1] == RioMergeCommand(MergeLayers(hyperionId, crossovers), MergedName(base))
  {
    var base := BaseName(hyperionId);
    var cands := CandidateCommands(crossovers);
    CandidateCommandsSpec(crossovers);
    var cmds := MergeCommands(hyperionId, crossovers);
    forall k | 0 <= k < |crossovers|
      ensures cmds[2 + 2 * k] == cands[2 * k] && cmds[3 + 2 * k] == cands[2 * k + 1]
    {
    }
  }

  predicate NoSpace(s: string) {
    ' ' !in s
  }

  lemma NoSpaceConcat(a: string, b: string)
    requires NoSpace(a) && NoSpace(b)
    ensures NoSpace(a + b)
  {
  }

  lemma NoSpaceNames(id: string)
    requires NoSpace(id)
    ensures NoSpace(TransparentTif(id)) && NoSpace(GeoTif(id))
  {
    NoSpaceConcat("/tmp/", id);
    NoSpaceConcat("/tmp/" + id, "_transparent.tif");
    NoSpaceConcat("/tmp/" + id, "_geotiff.tif");
  }

  /** The words of a command line come back when it is split on spaces. */
  lemma CommandWords(words: seq<string>)
    requires |words| >= 1
    requires forall i :: 0 <= i < |words| ==> NoSpace(words[i])
    ensures Split(CommandLine(words), ' ') == words
  {
    SplitJoin(words, ' ');
  }

  /** The argument vector of every crossover's two tool runs, when no name
      holds a space: convert trims the saved thumbnail into the transparent
      TIFF, which geotifcp reads together with the world file. */
  lemma CrossoverArgv(c: Crossover)
    requires NoSpace(c.id) && NoSpace(c.properties.itemType)
    ensures var stem := ItemStem(c.properties.itemType, c.id);
      && Split(CrossoverCommands(c)[0], ' ') == ["convert", "-trim", stem + ".png", TransparentTif(c.id)]
      && Split(CrossoverCommands(c)[1], ' ')
         == ["geotifcp", "-e", stem + ".wld", TransparentTif(c.id), GeoTif(c.id)]
  {
    var stem := ItemStem(c.properties.itemType, c.id);
    NoSpaceConcat(c.properties.itemType, "_");
    NoSpaceConcat(c.properties.itemType + "_", c.id);
    NoSpaceConcat(stem, ".png");
    NoSpaceConcat(stem, ".wld");
    NoSpaceNames(c.id);
    CommandWords(["convert", "-trim", stem + ".png", TransparentTif(c.id)]);
    CommandWords(["geotifcp", "-e", stem + ".wld", TransparentTif(c.id), GeoTif(c.id)]);
  }

  /** merge_images runs every command in the scene's directory, as the argument
      vector split from its command line: first the base image, keyed with
      "-transparent black" and then georeferenced, when its base name holds no
      space. */
  lemma MergeArgvBase(dir: string, hyperionId: string, crossovers: seq<Crossover>)
    requires NoSpace(BaseName(hyperionId))
    ensures var calls := MergePlan(dir, hyperionId, crossovers);
      var base := BaseName(hyperionId);
      && |calls| == 2 + 2 * |crossovers| + 1
      && (forall k :: 0 <= k < |calls| ==> calls[k].Call? && calls[k].directory == dir)
      && calls[0].argv == ["convert", base + ".jpg", "-transparent", "black", TransparentTif(base)]
      && calls[1].argv == ["geotifcp", "-e", base + ".wld", TransparentTif(base), GeoTif(base)]
  {
    var base := BaseName(hyperionId);
    MergeCommandsSpec(hyperionId, crossovers);
    CallsOfSpec(dir, MergeCommands(hyperionId, crossovers));
    NoSpaceNames(base);
    NoSpaceConcat(base, ".jpg");
    NoSpaceConcat(base, ".wld");
    CommandWords(["convert", base + ".jpg", "-transparent", "black", TransparentTif(base)]);
    CommandWords(["geotifcp", "-e", base + ".wld", TransparentTif(base), GeoTif(base)]);
  }

  /** Then, for each crossover in order, when no id or item type holds a space:
      convert trims the saved thumbnail into the transparent TIFF, which
      geotifcp reads together with the world file. */
  lemma MergeArgvCrossovers(dir: string, hyperionId: string, crossovers: seq<Crossover>)
    requires forall k :: 0 <= k < |crossovers| ==>
      NoSpace(crossovers[k].id) && NoSpace(crossovers[k].properties.itemType)
    ensures var calls := MergePlan(dir, hyperionId, crossovers);
      && |calls| == 2 + 2 * |crossovers| + 1
      && forall k :: 0 <= k < |crossovers| ==>
           var c := crossovers[k];
           var stem := ItemStem(c.properties.itemType, c.id);
           && calls[2 + 2 * k] == Call(dir, ["convert", "-trim", stem + ".png", TransparentTif(c.id)])
           && calls[3 + 2 * k] == Call(dir, ["geotifcp", "-e", stem + ".wld", TransparentTif(c.id), GeoTif(c.id)])
  {
    var cmds := MergeCommands(hyperionId, crossovers);
    MergeCommandsSpec(hyperionId, crossovers);
    CallsOfSpec(dir, cmds);
    forall k | 0 <= k < |crossovers|
      ensures var c := crossovers[k];
        var stem := ItemStem(c.properties.itemType, c.id);
        && Split(cmds[2 + 2 * k], ' ') == ["convert", "-trim", stem + ".png", TransparentTif(c.id)]
        && Split(cmds[3 + 2 * k], ' ') == ["geotifcp", "-e", stem + ".wld", TransparentTif(c.id), GeoTif(c.id)]
    {
      CrossoverArgv(crossovers[k]);
    }
  }

  /** Last, rio merge reads the layers, base first, and writes
      <base>_merged.tiff, when no name holds a space. */
  lemma MergeArgvMerge(dir: string, hyperionId: string, crossovers: seq<Crossover>)
    requires NoSpace(BaseName(hyperionId))
    requires forall k :: 0 <= k < |crossovers| ==> NoSpace(crossovers[k].id)
    ensures var calls := MergePlan(dir, hyperionId, crossovers);
      var base := BaseName(hyperionId);
      var merge := calls[|calls| - 1];
      && |calls| == 2 + 2 * |crossovers| + 1
      && merge == Call(dir, ["rio", "merge"] + MergeLayers(hyperionId, crossovers) + ["--output", MergedName(base)])
      && |merge.argv| == |crossovers| + 5
      && merge.argv[2] == GeoTif(base)
      && (forall k :: 0 <= k < |crossovers| ==> merge.argv[3 + k] == GeoTif(crossovers[k].id))
      && merge.argv[|crossovers| + 3] == "--output"
      && merge.argv[|crossovers| + 4] == MergedName(base)
  {
    var base := BaseName(hyperionId);
    var cmds := MergeCommands(hyperionId, crossovers);
    var layers := MergeLayers(hyperionId, crossovers);
    var words := ["rio", "merge"] + layers + ["--output", MergedName(base)];
    CandidateCommandsSpec(crossovers);
    assert cmds[|cmds| - 1] == CommandLine(words);
    CallsOfSpec(dir, cmds);
    MergeWords(hyperionId, crossovers);
    CommandWords(words);
  }

  /** The words of the rio merge command: none holds a space, and the layers
      stand base first, then each crossover's. */
  lemma MergeWords(hyperionId: string, crossovers: seq<Crossover>)
    requires NoSpace(BaseName(hyperionId))
    requires forall k :: 0 <= k < |crossovers| ==> NoSpace(crossovers[k].id)
    ensures var base := BaseName(hyperionId);
      var words := ["rio", "merge"] + MergeLayers(hyperionId, crossovers) + ["--output", MergedName(base)];
      && |words| == |crossovers| + 5
      && (forall i :: 0 <= i < |words| ==> NoSpace(words[i]))
      && words[2] == GeoTif(base)
      && (forall k :: 0 <= k < |crossovers| ==> words[3 + k] == GeoTif(crossovers[k].id))
      && words[|crossovers| + 3] == "--output"
      && words[|crossovers| + 4] == MergedName(base)
  {
    var base := BaseName(hyperionId);
    var layers := MergeLayers(hyperionId, crossovers);
    var words := ["rio", "merge"] + layers + ["--output", MergedName(base)];
    MergeLayersSpec(hyperionId, crossovers);
    NoSpaceNames(base);
    NoSpaceConcat(base, "_merged.tiff");
    forall i | 0 <= i < |words| ensures NoSpace(words[i]) {
      if 3 <= i < 2 + |layers| {
        NoSpaceNames(crossovers[i - 3].id);
      }
    }
    forall k | 0 <= k < |crossovers| ensures words[3 + k] == GeoTif(crossovers[k].id) {
      assert words[3 + k] == layers[k + 1];
    }
  }

  /** The merged mosaic is named after the base name, the id up to its first
      "_", the same name the base image is keyed and tagged under. */
  lemma MergedNameSpec(hyperionId: string)
    ensures var base := BaseName(hyperionId);
      && |base| <= |hyperionId| && hyperionId[..|base|] == base && '_' !in base
      && (|base| < |hyperionId| ==> hyperionId[|base|] == '_')
      && ('_' !in hyperionId ==> base == hyperionId)
  {
    BeforeFirstSpec(hyperionId, '_');
  }

  /** A scene "E12345" with crossovers "C1" and "C2", found in that order, is
      merged from its own layer and then theirs, in that order. */
  lemma ExampleMergeLayers(p1: Properties, p2: Properties, o1: string, o2: string)
    ensures MergeLayers("E12345", [Crossover("C1", o1, p1), Crossover("C2", o2, p2)])
         == ["/tmp/E12345_geotiff.tif", "/tmp/C1_geotiff.tif", "/tmp/C2_geotiff.tif"]
  {
    var id := "E12345";
    assert '_' !in id by {
      forall i | 0 <= i < |id| ensures id[i] != '_' {
        assert id[i] in "E012345";
      }
    }
    MergedNameSpec(id);
    var cs := [Crossover("C1", o1, p1), Crossover("C2", o2, p2)];
    MergeLayersSpec(id, cs);
    assert BaseName(id) == id;
    assert cs[0].id == "C1" && cs[1].id == "C2";
    var layers := MergeLayers(id, cs);
    assert |layers| == 3 && layers[0] == GeoTif(id);
    assert layers[1] == GeoTif("C1") && layers[2] == GeoTif("C2");
    assert layers == [GeoTif(id), GeoTif("C1"), GeoTif("C2")];
    ExampleLayerNames();
  }

  lemma ExampleLayerNames()
    ensures GeoTif("E12345") == "/tmp/E12345_geotiff.tif"
    ensures GeoTif("C1") == "/tmp/C1_geotiff.tif"
    ensures GeoTif("C2") == "/tmp/C2_geotiff.tif"
  {
  }

  // ---------------------------------------------------------------------------
  // Steps run in turn

  /** `step` run on each item in turn; the first exception ends the run. */
  function RunEach<X>(items: seq<X>, step: X -> Trace): Trace
    decreases |items|
  {
    if |items| == 0 then Trace([], None)
    else AndThen(RunEach(items[..|items| - 1], step), step(items[|items| - 1]))
  }

  lemma RunEachExtend<X>(items: seq<X>, i: int, step: X -> Trace)
    requires 0 <= i < |items|
    ensures RunEach(items[..i + 1], step) == AndThen(RunEach(items[..i], step), step(items[i]))
  {
    assert items[..i + 1][..i] == items[..i];
  }

  /** Once the items so far have raised, the rest of the run is skipped. */
  lemma {:induction false} RunEachPersists<X>(items: seq<X>, step: X -> Trace, j: nat)
    requires j <= |items| && RunEach(items[..j], step).failure.Some?
    ensures RunEach(items, step) == RunEach(items[..j], step)
    decreases |items| - j
  {
    if j < |items| {
      RunEachExtend(items, j, step);
      RunEachPersists(items, step, j + 1);
    } else {
      assert items[..j] == items;
    }
  }

  /** A run raises exactly when some step does, and then with the exception of
      the first such step. */
  lemma {:induction false} RunEachFails<X>(items: seq<X>, step: X -> Trace)
    ensures RunEach(items, step).failure.Some?
        <==> exists i :: 0 <= i < |items| && step(items[i]).failure.Some?
    ensures RunEach(items, step).failure.Some? ==>
      exists i :: && 0 <= i < |items| && step(items[i]).failure == RunEach(items, step).failure
                  && forall j :: 0 <= j < i ==> step(items[j]).failure.None?
    decreases |items|
  {
    if |items| > 0 {
      var front := items[..|items| - 1];
      RunEachFails(front, step);
      forall i | 0 <= i < |front| ensures front[i] == items[i] { }
    }
  }

  /** Every action of a run is an action of one of its steps. */
  lemma {:induction false} RunEachActions<X>(items: seq<X>, step: X -> Trace)
    ensures forall a :: a in RunEach(items, step).actions ==>
      exists i :: 0 <= i < |items| && a in step(items[i]).actions
    decreases |items|
  {
    if |items| > 0 {
      var front := items[..|items| - 1];
      RunEachActions(front, step);
      forall i | 0 <= i < |front| ensures front[i] == items[i] { }
    }
  }

  /** When every step that does not raise performs two actions, a run that does
      not raise performs the two actions of each step in turn. */
  lemma {:induction false} RunEachPairs<X>(items: seq<X>, step: X -> Trace)
    requires forall x :: step(x).failure.None? ==> |step(x).actions| == 2
    ensures var t := RunEach(items, step);
      t.failure.None? ==>
        && |t.actions| == 2 * |items|
        && forall k :: 0 <= k < |items| ==>
             && step(items[k]).failure.None?
             && t.actions[2 * k] == step(items[k]).actions[0]
             && t.actions[2 * k + 1] == step(items[k]).actions[1]
    decreases |items|
  {
    if |items| > 0 {
      var front := items[..|items| - 1];
      RunEachPairs(front, step);
      forall k | 0 <= k < |front| ensures front[k] == items[k] { }
    }
  }

  // ---------------------------------------------------------------------------
  // The main loop

  function ItemOutputDir(outputDir: string, id: string): string {
    outputDir + "/" + id
  }

  /** The width of the thumbnail of crossover `c`, as the main loop reads it back. */
  function ThumbnailWidth(dir: string, widthOf: string -> int, c: Crossover): int {
    widthOf(dir + "/" + c.properties.itemType + "_" + c.id + ".png")
  }

  function CrossoverFetch(dir: string, apiKey: string, c: Crossover): Action {
    DownloadPlanetBrowse(c.properties.itemType, c.id, apiKey, BrowseWidth, dir).0
  }

  /** The world file of crossover `c` at resolution `resolution`. */
  function CrossoverWorldFile(dir: string, show: real -> string, c: Crossover, resolution: real): Action {
    BuildWorldFile(resolution, c.properties.originX, c.properties.originY,
                   WorldFilePath(dir, c.properties.itemType, c.id), show)
  }

  /** One turn of the crossover loop: download the thumbnail, rescale the
      resolution to its width and write its world file. */
  function CrossoverSteps(dir: string, apiKey: string, widthOf: string -> int,
                          show: real -> string, c: Crossover): Trace
  {
    var fetch := CrossoverFetch(dir, apiKey, c);
    match NewResolution(ThumbnailWidth(dir, widthOf, c), c.properties.columns, c.properties.pixelResolution)
    case Err(e) => Trace([fetch], Some(e))
    case Ok(resolution) => Trace([fetch, CrossoverWorldFile(dir, show, c, resolution)], None)
  }

  function CrossoverStep(dir: string, apiKey: string, widthOf: string -> int, show: real -> string)
    : Crossover -> Trace
  {
    c => CrossoverSteps(dir, apiKey, widthOf, show, c)
  }

  /** The crossover loop of one group. */
  function CrossoversPlan(dir: string, apiKey: string, widthOf: string -> int,
                          show: real -> string, crossovers: seq<Crossover>): Trace
  {
    RunEach(crossovers, CrossoverStep(dir, apiKey, widthOf, show))
  }

  /** One turn of the group loop: the Hyperion download, the crossover loop,
      and merge_images. */
  function GroupPlan(outputDir: string, apiKey: string, widthOf: string -> int,
                     show: real -> string, group: CrossoverGroup): Trace
  {
    var dir := ItemOutputDir(outputDir, group.usgsId);
    AndThen(AndThen(Trace(DownloadHyperionBrowse(group.usgsId, dir), None),
                    CrossoversPlan(dir, apiKey, widthOf, show, group.crossovers)),
            Trace(MergePlan(dir, group.usgsId, group.crossovers), None))
  }

  function GroupStep(outputDir: string, apiKey: string, widthOf: string -> int, show: real -> string)
    : CrossoverGroup -> Trace
  {
    g => GroupPlan(outputDir, apiKey, widthOf, show, g)
  }

  /** The whole script, group by group. */
  function RenderPlan(outputDir: string, apiKey: string, widthOf: string -> int,
                      show: real -> string, groups: seq<CrossoverGroup>): Trace
  {
    RunEach(groups, GroupStep(outputDir, apiKey, widthOf, show))
  }

  /** One turn of the crossover loop raises exactly when the thumbnail has
      width zero, and never runs a tool. */
  lemma CrossoverStepsSpec(dir: string, apiKey: string, widthOf: string -> int,
                           show: real -> string, c: Crossover)
    ensures var t := CrossoverSteps(dir, apiKey, widthOf, show, c);
      && (t.failure.Some? <==> ThumbnailWidth(dir, widthOf, c) == 0)
      && (t.failure.Some? ==> t.failure == Some(ZeroDivisionError) && t.actions == [CrossoverFetch(dir, apiKey, c)])
      && (t.failure.None? ==>
            t.actions == [CrossoverFetch(dir, apiKey, c),
                          CrossoverWorldFile(dir, show, c, NewResolution(ThumbnailWidth(dir, widthOf, c),
                            c.properties.columns, c.properties.pixelResolution).value)])
      && forall i :: 0 <= i < |t.actions| ==> !t.actions[i].Call?
  {
  }

  /** The crossover loop of one group raises exactly when some thumbnail has
      width zero, and then with ZeroDivisionError; it never runs a tool.
      Otherwise it performs, crossover by crossover, the thumbnail download and
      the world-file write at the resolution rescaled to that thumbnail's width. */
  lemma CrossoversPlanSpec(dir: string, apiKey: string, widthOf: string -> int,
                           show: real -> string, crossovers: seq<Crossover>)
    ensures var t := CrossoversPlan(dir, apiKey, widthOf, show, crossovers);
      && (t.failure.Some? <==>
            exists k :: 0 <= k < |crossovers| && ThumbnailWidth(dir, widthOf, crossovers[k]) == 0)
      && (t.failure.Some? ==> t.failure == Some(ZeroDivisionError))
      && (forall i :: 0 <= i < |t.actions| ==> !t.actions[i].Call?)
      && (t.failure.None? ==>
            && |t.actions| == 2 * |crossovers|
            && forall k :: 0 <= k < |crossovers| ==>
                 var c := crossovers[k];
                 var r := NewResolution(ThumbnailWidth(dir, widthOf, c), c.properties.columns,
                                        c.properties.pixelResolution);
                 && r.Ok?
                 && t.actions[2 * k] == CrossoverFetch(dir, apiKey, c)
                 && t.actions[2 * k + 1] == CrossoverWorldFile(dir, show, c, r.value))
  {
    var step := CrossoverStep(dir, apiKey, widthOf, show);
    var t := CrossoversPlan(dir, apiKey, widthOf, show, crossovers);
    forall c ensures step(c) == CrossoverSteps(dir, apiKey, widthOf, show, c) {
      CrossoverStepsSpec(dir, apiKey, widthOf, show, c);
    }
    forall c ensures step(c).failure.None? ==> |step(c).actions| == 2 {
      CrossoverStepsSpec(dir, apiKey, widthOf, show, c);
    }
    RunEachFails(crossovers, step);
    RunEachPairs(crossovers, step);
    RunEachActions(crossovers, step);
    forall k | 0 <= k < |crossovers|
      ensures step(crossovers[k]).failure.Some? <==> ThumbnailWidth(dir, widthOf, crossovers[k]) == 0
      ensures step(crossovers[k]).failure.Some? ==> step(crossovers[k]).failure == Some(ZeroDivisionError)
    {
      CrossoverStepsSpec(dir, apiKey, widthOf, show, crossovers[k]);
    }
    forall i | 0 <= i < |t.actions| ensures !t.actions[i].Call? {
      assert t.actions[i] in t.actions;
      var k :| 0 <= k < |crossovers| && t.actions[i] in step(crossovers[k]).actions;
      CrossoverStepsSpec(dir, apiKey, widthOf, show, crossovers[k]);
    }
    if t.failure.None? {
      forall k | 0 <= k < |crossovers|
        ensures var c := crossovers[k];
          var r := NewResolution(ThumbnailWidth(dir, widthOf, c), c.properties.columns,
                                 c.properties.pixelResolution);
          && r.Ok?
          && t.actions[2 * k] == CrossoverFetch(dir, apiKey, c)
          && t.actions[2 * k + 1] == CrossoverWorldFile(dir, show, c, r.value)
      {
        CrossoverStepsSpec(dir, apiKey, widthOf, show, crossovers[k]);
      }
    }
  }

  /** The script raises exactly when some group does, and then with the
      exception of the first such group; the groups before it have run in full. */
  lemma RenderPlanFails(outputDir: string, apiKey: string, widthOf: string -> int,
                        show: real -> string, groups: seq<CrossoverGroup>)
    ensures var t := RenderPlan(outputDir, apiKey, widthOf, show, groups);
      && (t.failure.Some? <==>
            exists i :: 0 <= i < |groups| && GroupPlan(outputDir, apiKey, widthOf, show, groups[i]).failure.Some?)
      && (t.failure.Some? ==>
            exists i :: && 0 <= i < |groups|
                        && GroupPlan(outputDir, apiKey, widthOf, show, groups[i]).failure == t.failure
                        && (forall j :: 0 <= j < i ==>
                              GroupPlan(outputDir, apiKey, widthOf, show, groups[j]).failure.None?))
  {
    var step := GroupStep(outputDir, apiKey, widthOf, show);
    forall g ensures step(g) == GroupPlan(outputDir, apiKey, widthOf, show, g) { }
    RunEachFails(groups, step);
  }

  /** A group raises exactly when one of its thumbnails has width zero, and
      then before any tool runs. */
  lemma GroupPlanFails(outputDir: string, apiKey: string, widthOf: string -> int,
                       show: real -> string, group: CrossoverGroup)
    ensures var t := GroupPlan(outputDir, apiKey, widthOf, show, group);
      var dir := ItemOutputDir(outputDir, group.usgsId);
      && (t.failure.Some? <==>
            exists k :: 0 <= k < |group.crossovers| && ThumbnailWidth(dir, widthOf, group.crossovers[k]) == 0)
      && (t.failure.Some? ==> forall i :: 0 <= i < |t.actions| ==> !t.actions[i].Call?)
  {
    var t := GroupPlan(outputDir, apiKey, widthOf, show, group);
    var dir := ItemOutputDir(outputDir, group.usgsId);
    var download := DownloadHyperionBrowse(group.usgsId, dir);
    var loop := CrossoversPlan(dir, apiKey, widthOf, show, group.crossovers);
    CrossoversPlanSpec(dir, apiKey, widthOf, show, group.crossovers);
    if loop.failure.Some? {
      assert t.actions == download + loop.actions;
      forall i | 0 <= i < |t.actions| ensures !t.actions[i].Call? {
        if i >= 2 {
          assert t.actions[i] == loop.actions[i - 2];
        }
      }
    }
  }

  /** A group that does not raise runs, in order, the archive download and its
      extraction, the thumbnail download and world-file write of each crossover
      (as `CrossoversPlanSpec` lays them out), and the merge calls. */
  lemma GroupPlanLayout(outputDir: string, apiKey: string, widthOf: string -> int,
                        show: real -> string, group: CrossoverGroup)
    ensures var t := GroupPlan(outputDir, apiKey, widthOf, show, group);
      var dir := ItemOutputDir(outputDir, group.usgsId);
      t.failure.None? ==>
        && CrossoversPlan(dir, apiKey, widthOf, show, group.crossovers).failure.None?
        && t.actions == DownloadHyperionBrowse(group.usgsId, dir)
             + CrossoversPlan(dir, apiKey, widthOf, show, group.crossovers).actions
             + MergePlan(dir, group.usgsId, group.crossovers)
  {
  }

  lemma ConcatParts<T>(a: seq<T>, b: seq<T>, c: seq<T>)
    ensures |a + b + c| == |a| + |b| + |c|
    ensures forall k :: 0 <= k < |b| ==> (a + b + c)[|a| + k] == b[k]
    ensures forall k :: 0 <= k < |c| ==> (a + b + c)[|a| + |b| + k] == c[k]
  {
  }

  /** The two paths the main loop writes for a crossover, spelled as the
      group directory, a "/", and a name relative to it. */
  lemma CrossoverPaths(dir: string, apiKey: string, c: Crossover)
    ensures var stem := ItemStem(c.properties.itemType, c.id);
      && CrossoverFetch(dir, apiKey, c).SaveBrowse?
      && CrossoverFetch(dir, apiKey, c).path == dir + "/" + (stem + ".png")
      && WorldFilePath(dir, c.properties.itemType, c.id) == dir + "/" + (stem + ".wld")
  {
  }

  /** The main loop measures the thumbnail at the path the download saved it to. */
  lemma ThumbnailReopened(dir: string, apiKey: string, widthOf: string -> int, c: Crossover)
    ensures CrossoverFetch(dir, apiKey, c).SaveBrowse?
    ensures ThumbnailWidth(dir, widthOf, c) == widthOf(CrossoverFetch(dir, apiKey, c).path)
  {
    var itemType, itemId := c.properties.itemType, c.id;
    assert dir + "/" + ItemStem(itemType, itemId) + ".png"
        == dir + "/" + itemType + "_" + itemId + ".png";
  }

  /** The files of a group agree between the actions that write them and the
      merge calls that read them, in a run of `n` crossovers laid out as the
      archive download and extraction, a fetch and a world-file write per
      crossover, and the merge calls: the base image's files, and each
      crossover's (`CrossoverFilesAgree`). */
  predicate FilesAgree(dir: string, hyperionId: string, n: nat, actions: seq<Action>) {
    BaseFilesAgree(dir, hyperionId, n, actions) && CrossoverFilesAgree(dir, hyperionId, n, actions)
  }

  /** The base image's chain: the archive is unpacked into `dir`; the base
      convert, run there, reads "<base>.jpg" and writes the TIFF that the base
      geotifcp reads together with "<base>.wld"; and rio merge's first layer is
      what that geotifcp wrote. */
  predicate BaseFilesAgree(dir: string, hyperionId: string, n: nat, actions: seq<Action>) {
    var base := BaseName(hyperionId);
    && |actions| == 2 + 2 * n + (2 + 2 * n + 1)
    && actions[1].ExtractAll? && actions[1].directory == dir
    && var key := actions[2 + 2 * n];
    && var tag := actions[3 + 2 * n];
    && var merge := actions[|actions| - 1];
    && key.Call? && key.directory == dir && |key.argv| == 5
    && key.argv[0] == "convert" && key.argv[1] == base + ".jpg"
    && tag.Call? && tag.directory == dir && |tag.argv| == 5
    && tag.argv[0] == "geotifcp" && tag.argv[2] == base + ".wld"
    && tag.argv[3] == key.argv[4]
    && merge.Call? && |merge.argv| == n + 5
    && merge.argv[2] == tag.argv[4]
  }

  /** Each convert -trim reads the thumbnail its fetch saved, each geotifcp
      reads the world file written beside it and the TIFF that convert made,
      and rio merge reads, after the base layer, the layer each crossover's
      geotifcp wrote, in order. */
  predicate CrossoverFilesAgree(dir: string, hyperionId: string, n: nat, actions: seq<Action>) {
    && |actions| == 2 + 2 * n + (2 + 2 * n + 1)
    && var merge := actions[|actions| - 1];
    && merge.Call? && |merge.argv| == n + 5
    && merge.argv[2] == GeoTif(BaseName(hyperionId))
    && forall k :: 0 <= k < n ==>
         var fetch := actions[2 + 2 * k];
         var world := actions[3 + 2 * k];
         var trim := actions[4 + 2 * n + 2 * k];
         var tag := actions[5 + 2 * n + 2 * k];
         && fetch.SaveBrowse? && world.WriteFile?
         && trim.Call? && trim.directory == dir && |trim.argv| == 4 && trim.argv[1] == "-trim"
         && tag.Call? && tag.directory == dir && |tag.argv| == 5
         && dir + "/" + trim.argv[2] == fetch.path
         && dir + "/" + tag.argv[2] == world.path
         && tag.argv[3] == trim.argv[3]
         && merge.argv[3 + k] == tag.argv[4]
  }

  /** `CrossoverFilesAgree` holds of two actions, a loop that fetches each crossover's
      thumbnail and writes its world file, and merge calls whose argument
      vectors `MergeArgvCrossovers` and `MergeArgvMerge` describe. */
  lemma LayoutFilesAgree(dir: string, apiKey: string, hyperionId: string, crossovers: seq<Crossover>,
                         download: seq<Action>, loop: seq<Action>, rest: seq<Action>)
    requires |download| == 2 && |loop| == 2 * |crossovers| && |rest| == 2 + 2 * |crossovers| + 1
    requires forall k :: 0 <= k < |crossovers| ==>
      && loop[2 * k] == CrossoverFetch(dir, apiKey, crossovers[k])
      && loop[2 * k + 1].WriteFile?
      && loop[2 * k + 1].path == WorldFilePath(dir, crossovers[k].properties.itemType, crossovers[k].id)
    requires forall k :: 0 <= k < |crossovers| ==>
      var c := crossovers[k];
      var stem := ItemStem(c.properties.itemType, c.id);
      && rest[2 + 2 * k] == Call(dir, ["convert", "-trim", stem + ".png", TransparentTif(c.id)])
      && rest[3 + 2 * k] == Call(dir, ["geotifcp", "-e", stem + ".wld", TransparentTif(c.id), GeoTif(c.id)])
    requires var merge := rest[|rest| - 1];
      && merge.Call? && |merge.argv| == |crossovers| + 5
      && merge.argv[2] == GeoTif(BaseName(hyperionId))
      && (forall k :: 0 <= k < |crossovers| ==> merge.argv[3 + k] == GeoTif(crossovers[k].id))
    ensures CrossoverFilesAgree(dir, hyperionId, |crossovers|, download + loop + rest)
  {
    var n := |crossovers|;
    var actions := download + loop + rest;
    ConcatParts(download, loop, rest);
    assert actions[|actions| - 1] == rest[|rest| - 1];
    var merge := actions[|actions| - 1];
    forall k | 0 <= k < n
      ensures var fetch := actions[2 + 2 * k];
        var world := actions[3 + 2 * k];
        var trim := actions[4 + 2 * n + 2 * k];
        var tag := actions[5 + 2 * n + 2 * k];
        && fetch.SaveBrowse? && world.WriteFile?
        && trim.Call? && trim.directory == dir && |trim.argv| == 4 && trim.argv[1] == "-trim"
        && tag.Call? && tag.directory == dir && |tag.argv| == 5
        && dir + "/" + trim.argv[2] == fetch.path
        && dir + "/" + tag.argv[2] == world.path
        && tag.argv[3] == trim.argv[3]
        && merge.argv[3 + k] == tag.argv[4]
    {
      var c := crossovers[k];
      var stem := ItemStem(c.properties.itemType, c.id);
      assert actions[2 + 2 * k] == loop[2 * k];
      assert actions[3 + 2 * k] == loop[2 * k + 1];
      assert actions[4 + 2 * n + 2 * k] == Call(dir, ["convert", "-trim", stem + ".png", TransparentTif(c.id)]);
      assert actions[5 + 2 * n + 2 * k]
          == Call(dir, ["geotifcp", "-e", stem + ".wld", TransparentTif(c.id), GeoTif(c.id)]);
      CrossoverPaths(dir, apiKey, c);
    }
  }

  /** The base image's part of `FilesAgree`, from the extraction and the two
      base calls at the head of the merge calls. */
  lemma LayoutBaseAgrees(dir: string, hyperionId: string, n: nat,
                         download: seq<Action>, loop: seq<Action>, rest: seq<Action>)
    requires |download| == 2 && |loop| == 2 * n && |rest| == 2 + 2 * n + 1
    requires download[1].ExtractAll? && download[1].directory == dir
    requires var base := BaseName(hyperionId);
      && rest[0] == Call(dir, ["convert", base + ".jpg", "-transparent", "black", TransparentTif(base)])
      && rest[1] == Call(dir, ["geotifcp", "-e", base + ".wld", TransparentTif(base), GeoTif(base)])
    requires var merge := rest[|rest| - 1];
      merge.Call? && |merge.argv| == n + 5 && merge.argv[2] == GeoTif(BaseName(hyperionId))
    ensures BaseFilesAgree(dir, hyperionId, n, download + loop + rest)
  {
    var actions := download + loop + rest;
    ConcatParts(download, loop, rest);
    assert actions[1] == download[1];
    assert actions[2 + 2 * n] == rest[0];
    assert actions[3 + 2 * n] == rest[1];
    assert actions[|actions| - 1] == rest[|rest| - 1];
  }

  /** A group that does not raise, with no space in any name, hands each tool
      the files the steps before it wrote (`FilesAgree`). */
  lemma GroupPlanFiles(outputDir: string, apiKey: string, widthOf: string -> int,
                       show: real -> string, group: CrossoverGroup)
    requires forall k :: 0 <= k < |group.crossovers| ==>
      NoSpace(group.crossovers[k].id) && NoSpace(group.crossovers[k].properties.itemType)
    requires NoSpace(BaseName(group.usgsId))
    ensures var t := GroupPlan(outputDir, apiKey, widthOf, show, group);
      t.failure.None? ==>
        FilesAgree(ItemOutputDir(outputDir, group.usgsId), group.usgsId, |group.crossovers|, t.actions)
  {
    GroupPlanCrossoverFiles(outputDir, apiKey, widthOf, show, group);
    GroupPlanBaseFiles(outputDir, apiKey, widthOf, show, group);
  }

  /** The crossovers' part of `GroupPlanFiles`. */
  lemma GroupPlanCrossoverFiles(outputDir: string, apiKey: string, widthOf: string -> int,
                                show: real -> string, group: CrossoverGroup)
    requires forall k :: 0 <= k < |group.crossovers| ==>
      NoSpace(group.crossovers[k].id) && NoSpace(group.crossovers[k].properties.itemType)
    requires NoSpace(BaseName(group.usgsId))
    ensures var t := GroupPlan(outputDir, apiKey, widthOf, show, group);
      t.failure.None? ==>
        CrossoverFilesAgree(ItemOutputDir(outputDir, group.usgsId), group.usgsId, |group.crossovers|, t.actions)
  {
    var dir := ItemOutputDir(outputDir, group.usgsId);
    var cs := group.crossovers;
    var t := GroupPlan(outputDir, apiKey, widthOf, show, group);
    GroupPlanLayout(outputDir, apiKey, widthOf, show, group);
    if t.failure.None? {
      var loop := CrossoversPlan(dir, apiKey, widthOf, show, cs).actions;
      LoopWritesWorldFiles(dir, apiKey, widthOf, show, cs);
      MergeArgvCrossovers(dir, group.usgsId, cs);
      MergeArgvMerge(dir, group.usgsId, cs);
      LayoutFilesAgree(dir, apiKey, group.usgsId, cs, DownloadHyperionBrowse(group.usgsId, dir), loop,
                       MergePlan(dir, group.usgsId, cs));
    }
  }

  /** The base image's part of `GroupPlanFiles`. */
  lemma GroupPlanBaseFiles(outputDir: string, apiKey: string, widthOf: string -> int,
                           show: real -> string, group: CrossoverGroup)
    requires forall k :: 0 <= k < |group.crossovers| ==>
      NoSpace(group.crossovers[k].id) && NoSpace(group.crossovers[k].properties.itemType)
    requires NoSpace(BaseName(group.usgsId))
    ensures var t := GroupPlan(outputDir, apiKey, widthOf, show, group);
      t.failure.None? ==>
        BaseFilesAgree(ItemOutputDir(outputDir, group.usgsId), group.usgsId, |group.crossovers|, t.actions)
  {
    var dir := ItemOutputDir(outputDir, group.usgsId);
    var cs := group.crossovers;
    var t := GroupPlan(outputDir, apiKey, widthOf, show, group);
    GroupPlanLayout(outputDir, apiKey, widthOf, show, group);
    if t.failure.None? {
      var loop := CrossoversPlan(dir, apiKey, widthOf, show, cs).actions;
      LoopWritesWorldFiles(dir, apiKey, widthOf, show, cs);
      MergeArgvBase(dir, group.usgsId, cs);
      MergeArgvMerge(dir, group.usgsId, cs);
      LayoutBaseAgrees(dir, group.usgsId, |cs|, DownloadHyperionBrowse(group.usgsId, dir), loop,
                       MergePlan(dir, group.usgsId, cs));
    }
  }

  /** In a loop that does not raise, the second action of each crossover writes
      its world file. */
  lemma LoopWritesWorldFiles(dir: string, apiKey: string, widthOf: string -> int,
                             show: real -> string, crossovers: seq<Crossover>)
    ensures var t := CrossoversPlan(dir, apiKey, widthOf, show, crossovers);
      t.failure.None? ==>
        && |t.actions| == 2 * |crossovers|
        && forall k :: 0 <= k < |crossovers| ==>
             && t.actions[2 * k] == CrossoverFetch(dir, apiKey, crossovers[k])
             && t.actions[2 * k + 1].WriteFile?
             && t.actions[2 * k + 1].path
                == WorldFilePath(dir, crossovers[k].properties.itemType, crossovers[k].id)
  {
    CrossoversPlanSpec(dir, apiKey, widthOf, show, crossovers);
  }

  // ---------------------------------------------------------------------------
  // The script as written

  /** One turn of the group loop. */
  method RenderGroup(outputDir: string, apiKey: string, widthOf: string -> int,
                     show: real -> string, group: CrossoverGroup) returns (t: Trace)
    ensures t == GroupPlan(outputDir, apiKey, widthOf, show, group)
  {
    var id := group.usgsId;
    var itemOutputDir := ItemOutputDir(outputDir, id);
    var actions := DownloadHyperionBrowse(id, itemOutputDir);
    var crossovers := group.crossovers;
    ghost var step := CrossoverStep(itemOutputDir, apiKey, widthOf, show);
    var done: seq<Action> := [];
    var j := 0;
    while j < |crossovers|
      invariant 0 <= j <= |crossovers|
      invariant RunEach(crossovers[..j], step) == Trace(done, None)
    {
      var crossover := crossovers[j];
      var itemId := crossover.id;
      var itemType := crossover.properties.itemType;
      var (fetch, _) := DownloadPlanetBrowse(itemType, itemId, apiKey, BrowseWidth, itemOutputDir);
      var path := itemOutputDir + "/" + itemType + "_" + itemId + ".png";
      var width := widthOf(path);
      assert width == ThumbnailWidth(itemOutputDir, widthOf, crossover);
      var resolution := NewResolution(width, crossover.properties.columns, crossover.properties.pixelResolution);
      RunEachExtend(crossovers, j, step);
      assert step(crossover) == CrossoverSteps(itemOutputDir, apiKey, widthOf, show, crossover);
      if resolution.Err? {
        RunEachPersists(crossovers, step, j + 1);
        return Trace(actions + (done + [fetch]), Some(resolution.error));
      }
      var x := crossover.properties.originX;
      var y := crossover.properties.originY;
      done := done + [fetch, BuildWorldFile(resolution.value, x, y,
                                            WorldFilePath(itemOutputDir, itemType, itemId), show)];
      j := j + 1;
    }
    assert crossovers[..j] == crossovers;
    var calls := MergeImages(itemOutputDir, id, crossovers);
    t := Trace(actions + done + calls, None);
  }

  /** The script: every group in turn; an exception ends it. */
  method Render(outputDir: string, apiKey: string, widthOf: string -> int,
                show: real -> string, groups: seq<CrossoverGroup>) returns (t: Trace)
    ensures t == RenderPlan(outputDir, apiKey, widthOf, show, groups)
  {
    ghost var step := GroupStep(outputDir, apiKey, widthOf, show);
    var actions: seq<Action> := [];
    var i := 0;
    while i < |groups|
      invariant 0 <= i <= |groups|
      invariant RunEach(groups[..i], step) == Trace(actions, None)
    {
      var g := RenderGroup(outputDir, apiKey, widthOf, show, groups[i]);
      RunEachExtend(groups, i, step);
      assert step(groups[i]) == g;
      if g.failure.Some? {
        RunEachPersists(groups, step, i + 1);
        return Trace(actions + g.actions, g.failure);
      }
      actions := actions + g.actions;
      i := i + 1;
    }
    assert groups[..i] == groups;
    t := Trace(actions, None);
  }
}
