/**
 * The popup of popup.js: options loading, the preview slice, the export choice between a CSV
 * download and a tab-separated copy, and the per-domain auto-download toggle.
 */
module Popup {
  import opened Wrappers
  import opened CsvCodec
  import opened CsvDecode

  // ---------------------------------------------------------------------------------------
  // Options

  datatype Options = Options(delimiter: string, lineEnding: string, showHiddenTables: bool)

  /** The options before anything is loaded. */
  const DefaultOptions := Options(",", "\n", false)

  /** What `chrome.storage.sync` holds for each option key, if anything. */
  datatype StoredOptions = StoredOptions(delimiter: Option<string>, lineEnding: Option<string>, showHiddenTables: Option<bool>)

  /**
   * `storage.sync.get(options)` answers the stored value of each key and the current value of a
   * key that is not stored; `Object.assign` then copies every answer over the current options.
   */
  function MergeOptions(current: Options, stored: StoredOptions): Options {
    Options(
      stored.delimiter.GetOr(current.delimiter),
      stored.lineEnding.GetOr(current.lineEnding),
      stored.showHiddenTables.GetOr(current.showHiddenTables))
  }

  /** Loading with nothing stored keeps the options; loading twice is loading once. */
  lemma MergeOptionsLaws(current: Options, stored: StoredOptions)
    ensures MergeOptions(current, StoredOptions(None, None, None)) == current
    ensures MergeOptions(MergeOptions(current, stored), stored) == MergeOptions(current, stored)
    ensures stored.delimiter.Some? && stored.lineEnding.Some? && stored.showHiddenTables.Some? ==>
      MergeOptions(current, stored) == MergeOptions(DefaultOptions, stored)
  {
  }

  /** The stored answers of `later` laid over those of `earlier`: a key stored in `later` wins. */
  function Overlay(earlier: StoredOptions, later: StoredOptions): StoredOptions {
    StoredOptions(
      if later.delimiter.Some? then later.delimiter else earlier.delimiter,
      if later.lineEnding.Some? then later.lineEnding else earlier.lineEnding,
      if later.showHiddenTables.Some? then later.showHiddenTables else earlier.showHiddenTables)
  }

  /**
   * Two loads in a row equal one load of the later answers laid over the earlier ones: the last
   * stored value of each key decides it, and a key stored in neither keeps its current value.
   */
  lemma MergeOptionsCompose(current: Options, earlier: StoredOptions, later: StoredOptions)
    ensures MergeOptions(MergeOptions(current, earlier), later) == MergeOptions(current, Overlay(earlier, later))
  {
  }

  // ---------------------------------------------------------------------------------------
  // Preview and export

  /** A table grid as received from the content script. */
  type Grid = seq<seq<string>>

  /** `data.slice(0, 5)`: the rows the preview renders. */
  function PreviewRows(data: Grid): (r: Grid)
    ensures |r| == if |data| < 5 then |data| else 5
    ensures r <= data
  {
    if |data| <= 5 then data else data[..5]
  }

  /** The preview of a grid of at most five rows is the whole grid. */
  lemma ShortGridPreviewedWhole(data: Grid)
    requires |data| <= 5
    ensures PreviewRows(data) == data
  {
  }

  datatype ExportKind = Csv | Tsv

  datatype ExportAction =
    | NoExport                                  // no table chosen yet
    | Failed                                    // no grid came back: `encodeCsv(null)` throws
    | Download(filename: string, text: string)  // `downloadCsv(filename, csv)`
    | Copy(text: string)                        // `copyText(tsv)`

  /** Every cell of a grid received from the content script is a string. */
  function StrGrid(data: Grid): (r: seq<seq<CellValue>>)
    ensures |r| == |data|
    ensures forall i :: 0 <= i < |data| ==> |r[i]| == |data[i]|
  {
    seq(|data|, i requires 0 <= i < |data| => seq(|data[i]|, j requires 0 <= j < |data[i]| => Str(data[i][j])))
  }

  /** `'table-' + isoDate.slice(0, 10) + '.csv'`. */
  function ExportFilename(isoDate: string): string {
    "table-" + (if |isoDate| <= 10 then isoDate else isoDate[..10]) + ".csv"
  }

  /** The popup's module-level state. */
  class PopupState {
    var currentTabId: Option<int>
    var currentTableId: Option<int>
    var options: Options

    constructor ()
      ensures currentTabId == None && currentTableId == None && options == DefaultOptions
    {
      currentTabId := None;
      currentTableId := None;
      options := DefaultOptions;
    }

    /** `loadOptions()`. */
    method LoadOptions(stored: StoredOptions)
      modifies this
      ensures options == MergeOptions(old(options), stored)
      ensures currentTabId == old(currentTabId) && currentTableId == old(currentTableId)
    {
      options := MergeOptions(options, stored);
    }

    /**
     * `showPreview(id)` once the grid has arrived: the chosen table is remembered and the first
     * five rows are rendered; when no grid arrives, `data.slice` throws and nothing is rendered.
     */
    method ShowPreview(id: int, data: Option<Grid>) returns (rendered: Option<Grid>)
      modifies this
      ensures currentTableId == Some(id)
      ensures currentTabId == old(currentTabId) && options == old(options)
      ensures rendered.None? <==> data.None?
      ensures data.Some? ==> rendered.value == PreviewRows(data.value)
    {
      currentTableId := Some(id);
      if data.None? {
        return None;
      }
      rendered := Some(PreviewRows(data.value));
    }

    /**
     * `exportTable(type)` once the grid has arrived: nothing without a chosen table; a CSV
     * download with the configured delimiter and line ending; a copy separated by tabs with the
     * configured line ending.
     */
    method ExportTable(kind: ExportKind, data: Option<Grid>, isoDate: string) returns (action: ExportAction)
      ensures action == NoExport <==> currentTableId.None?
      ensures currentTableId.Some? && data.None? ==> action == Failed
      ensures currentTableId.Some? && data.Some? && kind == Csv ==>
        action == Download(ExportFilename(isoDate), EncodeCsv(StrGrid(data.value), options.delimiter, options.lineEnding))
      ensures currentTableId.Some? && data.Some? && kind == Tsv ==>
        action == Copy(EncodeCsv(StrGrid(data.value), "\t", options.lineEnding))
    {
      if currentTableId.None? {
        return NoExport;
      }
      if data.None? {
        return Failed;
      }
      if kind == Csv {
        var csv := EncodeCsv(StrGrid(data.value), options.delimiter, options.lineEnding);
        return Download(ExportFilename(isoDate), csv);
      } else {
        var tsv := EncodeCsv(StrGrid(data.value), "\t", options.lineEnding);
        return Copy(tsv);
      }
    }
  }

  /** A grid read from the page whose cells hold no carriage return comes back unchanged from its encoding. */
  lemma StrGridNormalized(data: Grid)
    requires forall i, j :: 0 <= i < |data| && 0 <= j < |data[i]| ==> '\r' !in data[i][j]
    ensures NormalizedGrid(StrGrid(data)) == data
  {
    forall i, j | 0 <= i < |data| && 0 <= j < |data[i]|
      ensures NormalizeNewlines(CellText(Str(data[i][j]))) == data[i][j]
    {
      NormalizeWithoutCr(data[i][j]);
    }
    assert forall i :: 0 <= i < |data| ==> NormalizedRow(StrGrid(data)[i]) == data[i];
  }

  /**
   * The tab-separated copy of a non-empty grid (every row with a cell, no carriage return in a
   * cell) reads back as that grid when split on tabs and a line ending that starts with a newline.
   */
  lemma CopiedGridReadsBack(data: Grid, lineEnding: string)
    requires |lineEnding| >= 1 && (lineEnding[0] == '\n' || lineEnding[0] == '\r')
    requires |data| >= 1 && forall i :: 0 <= i < |data| ==> |data[i]| >= 1
    requires forall i, j :: 0 <= i < |data| && 0 <= j < |data[i]| ==> '\r' !in data[i][j]
    ensures Decode(EncodeCsv(StrGrid(data), "\t", lineEnding), '\t', lineEnding) == Some(data)
  {
    DecodeEncode(StrGrid(data), '\t', lineEnding);
    StrGridNormalized(data);
  }

  /** The same for the CSV download with a one-character delimiter other than a quote or newline. */
  lemma DownloadedGridReadsBack(data: Grid, delimiter: char, lineEnding: string)
    requires Unambiguous(delimiter, lineEnding)
    requires |data| >= 1 && forall i :: 0 <= i < |data| ==> |data[i]| >= 1
    requires forall i, j :: 0 <= i < |data| && 0 <= j < |data[i]| ==> '\r' !in data[i][j]
    ensures Decode(EncodeCsv(StrGrid(data), [delimiter], lineEnding), delimiter, lineEnding) == Some(data)
  {
    DecodeEncode(StrGrid(data), delimiter, lineEnding);
    StrGridNormalized(data);
  }

  // ---------------------------------------------------------------------------------------
  // The auto-download domain list

  /** `list.filter(domain => domain !== d)`. */
  function RemoveAll(list: seq<string>, d: string): (r: seq<string>)
    ensures |r| <= |list|
  {
    if list == [] then []
    else (if list[0] == d then [] else [list[0]]) + RemoveAll(list[1..], d)
  }

  /** The list after toggling `d`: every occurrence removed if present, else `d` appended. */
  function Toggled(list: seq<string>, d: string): seq<string> {
    if d in list then RemoveAll(list, d) else list + [d]
  }

  /** Filtering removes `d` and keeps every other entry as often as before. */
  lemma {:induction false} RemoveAllSpec(list: seq<string>, d: string)
    ensures d !in RemoveAll(list, d)
    ensures forall x :: x != d ==> multiset(RemoveAll(list, d))[x] == multiset(list)[x]
    ensures d !in list ==> RemoveAll(list, d) == list
  {
    if list != [] {
      RemoveAllSpec(list[1..], d);
      assert list == [list[0]] + list[1..];
    }
  }

  /** Filtering a concatenation filters each part: the order of the kept entries is unchanged. */
  lemma {:induction false} RemoveAllAppend(a: seq<string>, b: seq<string>, d: string)
    ensures RemoveAll(a + b, d) == RemoveAll(a, d) + RemoveAll(b, d)
  {
    if a != [] {
      assert (a + b)[1..] == a[1..] + b;
      RemoveAllAppend(a[1..], b, d);
    } else {
      assert a + b == b;
    }
  }

  /** Filtering twice is filtering once. */
  lemma RemoveAllIdempotent(list: seq<string>, d: string)
    ensures RemoveAll(RemoveAll(list, d), d) == RemoveAll(list, d)
  {
    RemoveAllSpec(list, d);
    RemoveAllSpec(RemoveAll(list, d), d);
  }

  /**
   * A toggle flips whether `d` is listed, removes every copy of it or appends it at the end, and
   * leaves the other domains, their counts and their order as they were.
   */
  lemma ToggleSpec(list: seq<string>, d: string)
    ensures d in Toggled(list, d) <==> d !in list
    ensures d in list ==> d !in Toggled(list, d)
    ensures d !in list ==> Toggled(list, d) == list + [d]
    ensures forall x :: x != d ==> multiset(Toggled(list, d))[x] == multiset(list)[x]
    ensures RemoveAll(Toggled(list, d), d) == RemoveAll(list, d)
  {
    RemoveAllSpec(list, d);
    if d in list {
      RemoveAllIdempotent(list, d);
    } else {
      RemoveAllAppend(list, [d], d);
      assert RemoveAll([d], d) == [];
    }
  }

  /** Toggling an absent domain twice restores the list exactly. */
  lemma ToggleAbsentTwice(list: seq<string>, d: string)
    requires d !in list
    ensures Toggled(Toggled(list, d), d) == list
  {
    RemoveAllAppend(list, [d], d);
    RemoveAllSpec(list, d);
    assert RemoveAll([d], d) == [];
  }

  /** Toggling a present domain twice leaves one copy of it, moved to the end. */
  lemma TogglePresentTwice(list: seq<string>, d: string)
    requires d in list
    ensures Toggled(Toggled(list, d), d) == RemoveAll(list, d) + [d]
  {
    RemoveAllSpec(list, d);
  }

  /** A list without repeated domains keeps having none. */
  lemma ToggleKeepsDistinct(list: seq<string>, d: string)
    requires forall x :: multiset(list)[x] <= 1
    ensures forall x :: multiset(Toggled(list, d))[x] <= 1
  {
    ToggleSpec(list, d);
    if d in list {
      RemoveAllSpec(list, d);
    }
  }

  /** The stored `autoDownloadDomains` value, absent until the first toggle. */
  class SyncStore {
    var autoDownloadDomains: Option<seq<string>>

    constructor (domains: Option<seq<string>>)
      ensures autoDownloadDomains == domains
    {
      autoDownloadDomains := domains;
    }
  }

  /** `autoDownloadDomains.includes(domain)` on the stored value, an absent value read as `[]`. */
  function IsEnabled(stored: Option<seq<string>>, domain: string): bool {
    domain in stored.GetOr([])
  }

  /**
   * `toggleAutoDownloadForCurrentDomain()` for the current tab's host name: the stored list is
   * replaced by the toggled one and the button is told whether the domain is now listed.
   */
  method ToggleAutoDownloadForCurrentDomain(store: SyncStore, currentDomain: string) returns (isEnabled: bool)
    modifies store
    ensures store.autoDownloadDomains == Some(Toggled(old(store.autoDownloadDomains).GetOr([]), currentDomain))
    ensures isEnabled == IsEnabled(store.autoDownloadDomains, currentDomain)
    ensures isEnabled == !IsEnabled(old(store.autoDownloadDomains), currentDomain)
  {
    var autoDownloadDomains := store.autoDownloadDomains.GetOr([]);
    ToggleSpec(autoDownloadDomains, currentDomain);
    if currentDomain in autoDownloadDomains {
      autoDownloadDomains := RemoveAll(autoDownloadDomains, currentDomain);
    } else {
      autoDownloadDomains := autoDownloadDomains + [currentDomain];
    }
    store.autoDownloadDomains := Some(autoDownloadDomains);
    isEnabled := currentDomain in autoDownloadDomains;
  }

  /** What `updateAutoDownloadButton` shows. */
  datatype ButtonFace = ButtonFace(caption: string, color: string)

  function AutoDownloadButton(isEnabled: bool): ButtonFace {
    if isEnabled then ButtonFace("Disable Auto Download", "#d73502")
    else ButtonFace("Enable Auto Download", "#0b57d0")
  }

  /**
   * The button tells the two states apart by caption and by colour alike, and its caption offers
   * the action that leaves the current state.
   */
  lemma ButtonFaceShowsState(a: bool, b: bool)
    ensures AutoDownloadButton(a).caption == AutoDownloadButton(b).caption <==> a == b
    ensures AutoDownloadButton(a).color == AutoDownloadButton(b).color <==> a == b
    ensures a <==> AutoDownloadButton(a).caption[..7] == "Disable"
  {
    var on, off := AutoDownloadButton(true), AutoDownloadButton(false);
    assert on.caption[0] != off.caption[0];
    assert on.color[1] != off.color[1];
    assert on.caption[..7] == "Disable";
    assert off.caption[..7][0] != 'D';
  }

  /** After a toggle the button offers the opposite of what it offered before. */
  lemma ToggleSwapsButton(stored: Option<seq<string>>, domain: string)
    ensures AutoDownloadButton(IsEnabled(Some(Toggled(stored.GetOr([]), domain)), domain))
      != AutoDownloadButton(IsEnabled(stored, domain))
  {
    ToggleSpec(stored.GetOr([]), domain);
  }
}
