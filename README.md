# Crossovers guide, modelled in Dafny

This project models the crossovers guide, a small Python 2 toolchain. It pairs
scenes of the EO-1 Hyperion catalog with Planet images of the same ground
taken within a few hours ("crossovers"). It then plans a composite picture of
each scene with its crossovers. Three scripts are modelled:

- `search_planet.py` builds the body of a Planet quick-search request: an
  AndFilter of a GeometryFilter and a DateRangeFilter with inclusive bounds.
  The model is `SearchPlanet` (`search_planet.dfy`). The HTTP POST is a
  function parameter `post` that maps a request to the features it returns.
- `find_crossovers.py` matches scenes to candidates. The model is
  `FindCrossovers` (`find_crossovers.dfy`). For each scene it builds:
  - the 5-vertex footprint ring;
  - the ±2 hour time window, as two timestamp strings;
  - the crossovers of the search results, each with its acquisition-offset
    text.

  The batch loop keeps only the scenes that have crossovers. Time is integer
  microseconds since 0001-01-01, as Python's `datetime` and `timedelta` hold
  it. `DateTimes` (`datetimes.dfy`) models the calendar conversion, the
  `OverflowError` of datetime arithmetic, and `strftime`: Python 2 refuses
  years before 1900, and `%z` prints nothing for a naive datetime, so every
  bound ends in a literal `Z`.
- `render_crossovers.py` composites the images. The model is
  `RenderCrossovers` (`render_crossovers.dfy`). The script is modelled as the
  sequence of effects it performs: downloads, archive extraction, world-file
  writes and tool calls (`Action`). If it raises, the sequence ends there and
  carries the exception (`Trace`). The model covers:
  - the resolution rescale;
  - the six world-file values and their text;
  - the file names and URLs;
  - `merge_images`, with its command and layer lists;
  - the main loop over groups and crossovers.

`Strings` (`strings.dfy`) holds the text model shared by these modules:
- decimal printing;
- `sep.join`;
- `s.split(sep)` for a one-character separator, with its round trip.

`Arithmetic` (`arithmetic.dfy`) holds two division facts used by the calendar
proofs.

The loops of the source are methods with loop invariants, each proved equal to
a specification function:
- `FindCrossovers.CollectCrossovers` and `FindCrossovers.FindAllCrossovers`;
- `RenderCrossovers.MergeImages`, `RenderCrossovers.RenderGroup` and
  `RenderCrossovers.Render`.

The properties are proved about those functions.

The model follows the code in these places:
- **Window length.** The window width is `delta_hours/2` hours on each side.
  Python 2 floors this division, so the window spans `delta_hours` hours only
  for an even width (`WindowSymmetric`). The search bounds are inclusive
  (gte and lte), and with the script's width of 4 the acquisition lies
  strictly inside, two hours from either end (`WindowStrict`).
- **Second search.** The batch loop calls `find_crossovers` twice for a kept
  scene rather than once. Under the model's deterministic search, the stored
  list is the one checked for emptiness (`FindAllCrossovers`).
- **Exceptions end the run.** An exception in one scene ends the whole batch,
  and a zero-width thumbnail ends the whole render script. Neither is
  isolated to its scene or group (`GroupsErr`, `RenderPlanFails`).
- **Tool failures.** Tool exit statuses are ignored (`subprocess.call`), so a
  tool that runs and exits non-zero does not stop anything.
- **Layer names.** The merge layers are the `/tmp/<id>_geotiff.tif` files of
  the base scene and the crossovers, not the bare ids
  (`ExampleMergeLayers`).

## Model

| member | source | states |
|---|---|---|
| SearchPlanet.SearchEndpointRequest | crossovers_guide/search_planet.py:5-34 | the request carries the given item types (default ["PSScene3Band"], default dates 2001-07-01 and 2018-08-01); its filter is an AndFilter from which a reader gets back exactly the input geometry and the inclusive range gte = date_start, lte = date_end |
| SearchPlanet.ReadRequestDetermines | crossovers_guide/search_planet.py:11-34 | a request body that reads back as a geometry and a date range is exactly the body search builds from them and its item types |
| SearchPlanet.Search | crossovers_guide/search_planet.py:5-42 | the features answered are the service's answer to the one request that carries the item types and reads back as the geometry and the inclusive bounds |
| SearchPlanet.RequestShape | crossovers_guide/search_planet.py:11-29 | the combined filter's config is exactly [GeometryFilter on "geometry" with the geometry unchanged, DateRangeFilter on "acquired" with (date_start, date_end)], in that order, with those type keys |
| FindCrossovers.UsgsRecordToGeoJson | crossovers_guide/find_crossovers.py:14-45 | the footprint is one ring of exactly 5 vertices; vertex i is [longitude, latitude] of corner UL, UR, LR, LL in turn, copied unchanged; the last vertex equals the first; the ring reads back as the four corners |
| FindCrossovers.WindowSymmetric | crossovers_guide/find_crossovers.py:52-53 | start and end lie (delta_hours div 2) hours before and after the acquisition; start <= t <= end for a non-negative width; end - start equals delta_hours hours exactly when delta_hours is even, and one hour less when it is odd |
| FindCrossovers.WindowStrict | crossovers_guide/find_crossovers.py:8-53 | with CROSS_OVER_WINDOW_HOURS = 4 the acquisition lies strictly between the bounds, two hours from each |
| FindCrossovers.CrossoverWindow | crossovers_guide/find_crossovers.py:47-54 | the window is the pair of formatted bounds exactly when both bounds lie in the datetime range and format; otherwise it raises the first failure in source order: an out-of-range start raises OverflowError, a start before 1900 strftime's ValueError, then the same two for the end |
| FindCrossovers.WindowAdmits | crossovers_guide/find_crossovers.py:52-53 | read as a date filter, the window admits an acquisition instant exactly when it lies between the two bounds, both included |
| FindCrossovers.ExampleWindow | crossovers_guide/find_crossovers.py:52-53 | a scene acquired 2017-02-15T10:00:00 gets the window ("2017-02-15T08:00:00.000000Z", "2017-02-15T12:00:00.000000Z") |
| DateTimes.AddHours | crossovers_guide/find_crossovers.py:52-53 | datetime plus a timedelta of whole hours moves the instant by exactly that many hours, and raises OverflowError exactly when the result leaves [datetime.min, datetime.max] |
| DateTimes.AddHoursInverse | crossovers_guide/find_crossovers.py:52-53 | subtracting the same timedelta undoes an addition that did not overflow |
| DateTimes.AddHoursWithinDay | crossovers_guide/find_crossovers.py:52-53 | a shift that keeps the hour within 0..23 leaves the date, minute, second and microsecond unchanged and moves the hour field by exactly the shift |
| DateTimes.OrdinalDate | crossovers_guide/find_crossovers.py:52-53 | the day number becomes a valid year (1..9999), month and day whose days before the date add back up to the day number |
| DateTimes.CivilRoundTrip | crossovers_guide/find_crossovers.py:52-53 | the calendar fields of an instant determine it: converting them back gives the instant |
| DateTimes.StrftimeRoundTrip | crossovers_guide/find_crossovers.py:52-53 | "%Y-%m-%dT%H:%M:%S.%f%zZ" of a naive datetime is 27 characters, with six microsecond digits, an empty %z and a final Z, and it parses back to the same fields |
| DateTimes.FormatNaiveSpec | crossovers_guide/find_crossovers.py:52-53 | formatting a bound fails exactly for years before 1900, with ValueError; otherwise the text is 27 characters ending in Z and reads back as the instant's calendar fields |
| Strings.PadDigits | crossovers_guide/find_crossovers.py:58 | a printed integer is all digits, denotes the integer, and has at least the requested width (exactly that width when the value fits); a text longer than the width and than one digit has no leading zero, so "{}".format(n) prints no extra zeros |
| FindCrossovers.TimeBetweenDates | crossovers_guide/find_crossovers.py:56-58 | the text is six words "<d> days <h> hours <m> minutes" whose numbers, with h < 24 and m < 60, give the distance between the two instants to the minute; each number is printed without leading zeros, as "{}".format prints it |
| FindCrossovers.OffsetBetween | crossovers_guide/find_crossovers.py:56-58 | the offset of abs(a - b) has hours < 24 and minutes < 60 and brackets the distance: days*86400 + hours*3600 + minutes*60 <= seconds of abs(a - b) < that sum + 60 |
| FindCrossovers.OffsetUnique | crossovers_guide/find_crossovers.py:56-58 | any days/hours/minutes triple with hours < 24 and minutes < 60 that brackets the distance is the computed offset |
| FindCrossovers.TimeBetweenSymmetric | crossovers_guide/find_crossovers.py:56-58 | time_between_dates(a, b) == time_between_dates(b, a) |
| FindCrossovers.OffsetTextReadsBack | crossovers_guide/find_crossovers.py:58 | the offset text splits on spaces into exactly the words [str(days), "days", str(hours), "hours", str(minutes), "minutes"], whose numbers read back as the days, hours and minutes |
| FindCrossovers.ExampleOffset | crossovers_guide/find_crossovers.py:56-58 | a candidate acquired 30 minutes before the scene is "0 days 0 hours 30 minutes" away |
| FindCrossovers.MatcherRequest | crossovers_guide/find_crossovers.py:62-76 | the matcher searches exactly when the window formats; its request has the default item types, the scene's footprint and the window bounds as gte/lte |
| FindCrossovers.CrossoversForSpec | crossovers_guide/find_crossovers.py:78-95 | one crossover per search result, in result order, with the result's id and properties and the offset of its acquisition; no results give no crossovers |
| FindCrossovers.CollectCrossovers | crossovers_guide/find_crossovers.py:78-94 | the append loop computes the crossovers of the search results |
| FindCrossovers.FindCrossovers | crossovers_guide/find_crossovers.py:60-95 | find_crossovers raises exactly when the window does, with its exception, and otherwise returns the crossovers of what the search answers for the scene's request |
| FindCrossovers.KeptSpec | crossovers_guide/find_crossovers.py:99-110 | the kept records are listed in increasing order, and a record is kept exactly when its matcher succeeds with a non-empty list |
| FindCrossovers.GroupsSpec | crossovers_guide/find_crossovers.py:99-110 | a finished batch has one group per kept record, in record order, with usgs_id the record's displayId and the record's crossovers as its list; no group is empty |
| FindCrossovers.GroupsErr | crossovers_guide/find_crossovers.py:99-110 | the batch raises exactly when the matcher raises on some record, and then with the exception of the first such record |
| FindCrossovers.GroupsErrPersists | crossovers_guide/find_crossovers.py:100-102 | once a record has raised, the later records change nothing |
| FindCrossovers.FindAllCrossovers | crossovers_guide/find_crossovers.py:97-110 | the batch loop with its second find_crossovers call computes the groups of the records, so the stored list is the one checked for emptiness |
| RenderCrossovers.NewResolution | crossovers_guide/render_crossovers.py:67-71 | ZeroDivisionError exactly for a zero new width; otherwise the new resolution times the new width equals the old resolution times the old width |
| RenderCrossovers.NewResolutionUnique | crossovers_guide/render_crossovers.py:67-71 | the result is the only value r with r * new_width == old_resolution * old_width; an unchanged width keeps the old resolution |
| RenderCrossovers.WorldFileGeoreference | crossovers_guide/render_crossovers.py:58-64 | the world file (r, 0, 0, -r, x, y) maps pixel (column, row) to (x + r*column, y - r*row), so north-up with no rotation; for r != 0 every ground point (gx, gy) is the image of a pixel position, and any pixel mapping to it is that position |
| RenderCrossovers.ThumbnailExtent | crossovers_guide/render_crossovers.py:58-71 | georeferenced with the rescaled resolution, the thumbnail's right edge falls where the full scene's right edge is: x + old_resolution * old_width |
| RenderCrossovers.BuildWorldFile | crossovers_guide/render_crossovers.py:44-65 | build_worldfile writes at the given path, and when no printed value holds a newline the text reads back as str(r), str(0.0), str(0.0), str(-r), str(x), str(y) |
| RenderCrossovers.WorldFileLines | crossovers_guide/render_crossovers.py:65 | the file text, split at newlines, gives back one line per value, each the value as str prints it |
| RenderCrossovers.WorldFileEnd | crossovers_guide/render_crossovers.py:65 | the file's last characters are exactly the last printed value, so there is no trailing newline when that value is non-empty |
| RenderCrossovers.WorldFileSixLines | crossovers_guide/render_crossovers.py:58-65 | a crossover's world file reads back as exactly six lines: str(r), str(0.0), str(0.0), str(-r), str(x), str(y) |
| RenderCrossovers.DownloadHyperionBrowse | crossovers_guide/render_crossovers.py:17-27 | the browse archive is retrieved from the EarthExplorer browse URL of the id into "<dir>/<id>.zip", and that same archive is then unpacked into <dir> |
| RenderCrossovers.DownloadPlanetBrowseSaves | crossovers_guide/render_crossovers.py:29-42 | the thumbnail is fetched from "https://tiles0.planet.com/v1/experimental/tiles/<item_type>/<item_id>/thumb?api_key=<key>&width=<width>" and saved at the path the function returns, "<dir>/<item_type>_<item_id>.png" |
| RenderCrossovers.CrossoverFetchUrl | crossovers_guide/render_crossovers.py:116-122 | the main loop's thumbnail request asks for width=500 |
| Strings.BeforeFirstSpec | crossovers_guide/render_crossovers.py:75 | s.split("_")[0] is the prefix of s that holds no "_" and is followed by "_" or the end; the whole of s when s has no "_" |
| RenderCrossovers.MergedNameSpec | crossovers_guide/render_crossovers.py:75-97 | the base name, which names the keyed, tagged and merged files, is the scene id up to its first "_", or the whole id |
| RenderCrossovers.CandidateCommandsSpec | crossovers_guide/render_crossovers.py:88-94 | the crossover loop adds two commands per crossover, in crossover order |
| RenderCrossovers.CandidateLayersSpec | crossovers_guide/render_crossovers.py:88-95 | the crossover loop adds one layer /tmp/<id>_geotiff.tif per crossover, in crossover order |
| RenderCrossovers.MergeLayersSpec | crossovers_guide/render_crossovers.py:86-95 | the layer list has 1 + n entries: the base geotiff first, then each crossover's geotiff in group order |
| RenderCrossovers.ExampleMergeLayers | crossovers_guide/render_crossovers.py:86-95 | base E12345 with crossovers C1, C2 merges /tmp/E12345_geotiff.tif, /tmp/C1_geotiff.tif, /tmp/C2_geotiff.tif in that order |
| RenderCrossovers.MergeCommandsSpec | crossovers_guide/render_crossovers.py:78-97 | the command list has 2 + 2n + 1 entries: the base's convert and geotifcp, then each crossover's convert directly before its geotifcp, in order, and rio merge of the layers into <base>_merged.tiff last |
| RenderCrossovers.MergeImages | crossovers_guide/render_crossovers.py:74-101 | the two append loops and the call loop of merge_images run exactly the planned calls |
| RenderCrossovers.CallsOfSpec | crossovers_guide/render_crossovers.py:99-101 | one call per command, in order, each run with the command split on single spaces |
| RenderCrossovers.CommandWords | crossovers_guide/render_crossovers.py:99-101 | a command line built from space-free words splits back into those words |
| RenderCrossovers.CrossoverArgv | crossovers_guide/render_crossovers.py:93-94 | with no space in the names, a crossover's tools run as ["convert", "-trim", <stem>.png, <tif>] and ["geotifcp", "-e", <stem>.wld, <tif>, <geotif>] |
| RenderCrossovers.MergeArgvBase | crossovers_guide/render_crossovers.py:80-101 | every merge call runs in the scene directory; the base is keyed with convert ... -transparent black and then tagged by geotifcp -e <base>.wld |
| RenderCrossovers.MergeArgvCrossovers | crossovers_guide/render_crossovers.py:88-101 | each crossover's calls are its convert -trim and geotifcp argument vectors, at positions 2 + 2k and 3 + 2k |
| RenderCrossovers.MergeWords | crossovers_guide/render_crossovers.py:97 | the rio merge words are space-free and list the base geotiff, then each crossover's, then --output <base>_merged.tiff |
| RenderCrossovers.MergeArgvMerge | crossovers_guide/render_crossovers.py:97-101 | the last call is rio merge with argv of n + 5 words: the base layer first, the crossover layers in order, then --output <base>_merged.tiff |
| RenderCrossovers.CrossoverStepsSpec | crossovers_guide/render_crossovers.py:112-139 | one crossover turn raises exactly for a zero thumbnail width, with ZeroDivisionError after the download; otherwise it downloads, then writes the world file at the rescaled resolution |
| RenderCrossovers.CrossoversPlanSpec | crossovers_guide/render_crossovers.py:112-139 | the crossover loop raises exactly when some thumbnail has zero width, never runs a tool, and otherwise performs for each crossover in order its download and its world-file write at the rescaled resolution |
| RenderCrossovers.LoopWritesWorldFiles | crossovers_guide/render_crossovers.py:112-139 | in a loop that does not raise, each crossover's second action writes "<dir>/<item_type>_<item_id>.wld" |
| RenderCrossovers.CrossoverPaths | crossovers_guide/render_crossovers.py:124-139 | the thumbnail is saved at "<dir>/<stem>.png", and the world file is "<dir>/<stem>.wld" |
| RenderCrossovers.ThumbnailReopened | crossovers_guide/render_crossovers.py:116-126 | the path the loop reopens, spelled as the loop spells it, is the path the download saved the thumbnail to, so the width measured is that thumbnail's |
| RenderCrossovers.GroupPlanFails | crossovers_guide/render_crossovers.py:107-141 | a group raises exactly when one of its thumbnails has zero width, and then no tool has run |
| RenderCrossovers.GroupPlanLayout | crossovers_guide/render_crossovers.py:107-141 | a group that does not raise runs, in order, the archive download and extraction, the crossover loop and the merge calls |
| RenderCrossovers.LayoutFilesAgree | crossovers_guide/render_crossovers.py:116-141 | in such a layout, each crossover's convert -trim reads the saved thumbnail, its geotifcp reads the world file written for it and the TIFF that convert made, and rio merge's crossover layers are those geotifcp outputs, in order |
| RenderCrossovers.LayoutBaseAgrees | crossovers_guide/render_crossovers.py:80-84 | in such a layout, the archive is unpacked into the scene directory, the base convert run there reads <base>.jpg, the base geotifcp reads <base>.wld and the TIFF the base convert wrote, and rio merge's first layer is that geotifcp's output |
| RenderCrossovers.GroupPlanFiles | crossovers_guide/render_crossovers.py:104-141 | with no space in any name, a group that does not raise hands every tool the files its earlier steps wrote (FilesAgree): the base convert and geotifcp read the base files in the directory the archive was unpacked into, each crossover's tools read its thumbnail and world file, each geotifcp reads its convert's TIFF, and rio merge reads every geotifcp output, base first |
| RenderCrossovers.RenderGroup | crossovers_guide/render_crossovers.py:107-141 | one turn of the group loop performs the group's planned actions, stopping at the first exception |
| RenderCrossovers.RenderPlanFails | crossovers_guide/render_crossovers.py:104-141 | the script raises exactly when some group does, and then with the exception of the first such group |
| RenderCrossovers.Render | crossovers_guide/render_crossovers.py:104-141 | the group loop performs each group's actions in turn and stops at the first exception |

## Left out

- HTTP is not modelled: the quick-search POST, the thumbnail GET, the archive download and the API's JSON decoding. The search is the parameter `post`, and the downloads are `Action` values.
- The search is assumed deterministic. A real service can answer the second call of the batch loop differently.
- File and process I/O are effects in the plan and are never performed. This covers `open`/`write`, `os.makedirs` with its `os.path.exists` checks, zip extraction, PIL `Image.open`/`save` and `subprocess.call`.
- No I/O call fails in the model. It never raises the IOError of `urlretrieve`, `open` or PIL's `Image.open`, the BadZipfile of `extractall`, dateutil's ValueError for an unreadable "acquired" (`parseAcquired` is total), or the KeyError of a missing `PLANET_API_KEY`. The "exactly when" of GroupsErr, GroupPlanFails and RenderPlanFails holds under that assumption.
- The exit statuses of the external tools are ignored, as in the source.
- `os.getcwd`/`os.chdir` are not modelled. Each `Call` carries the directory it runs in, and restoring the old directory (render_crossovers.py:102) has no counterpart.
- `print` output is left out.
- The JSON files between the two scripts are not modelled. `find_crossovers.py` reads its records and writes its groups as JSON. The model takes records as `UsgsRecord` values, and the render model takes `CrossoverGroup` values.
- `datetime.strptime` of the scene start time is not modelled; `UsgsRecord.sceneStartTime` is the parsed instant.
- dateutil parsing of a result's "acquired" timestamp, with its zone dropped, is the parameter `parseAcquired`.
- Timezones are not modelled: naive instants are compared as the source compares them.
- The thumbnail width `Image.open(path).size` is the parameter `widthOf`. Python's `str(float)` is the parameter `show`.
- Resolutions and coordinates are exact reals. IEEE rounding is not modelled.
- `os.environ["PLANET_API_KEY"]` is the parameter `apiKey`.
- Python's `ValueError` for a non-numeric "columns" or "pixel_resolution", and its `KeyError` for a missing key, are not modelled. Properties are typed records with those fields.
- DateTimes.Strftime: `%Y` is printed as four zero-padded digits. Python 2 formats only years from 1900 on, and those always have four digits, so no year the source can print is affected.
- RenderCrossovers.CrossoverArgv, RenderCrossovers.MergeArgvBase, RenderCrossovers.MergeArgvCrossovers, RenderCrossovers.MergeArgvMerge, RenderCrossovers.GroupPlanFiles: the argument vectors are stated only for ids and item types without spaces. With a space, `cmd.split(" ")` cuts a name into several arguments.
- RenderCrossovers.WorldFileLines, RenderCrossovers.WorldFileSixLines, RenderCrossovers.BuildWorldFile: the line-by-line reading is stated only when `str` of a float holds no newline, which Python guarantees.
- `search_usgs.py` and the repository's example scripts (`activation.py`, `download.py`, `paginate.py` and the others) are not part of this model. They are network plumbing, pagination, retries and thread pools.
- RenderCrossovers.GroupPlanFiles: the Hyperion archive is assumed to unpack `<base>.jpg` and `<base>.wld` into the scene directory. `ExtractAll` records where the archive is unpacked, not which files it holds, so the base convert and geotifcp are shown to read from that directory but not that those files exist.
