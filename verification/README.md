# NumbersScanner core, modelled in Dafny

NumbersScanner is an iOS app. It points the camera at printed numbers, reads them with text recognition and fills them into a spreadsheet-like grid, which it can export as CSV. This project models the app's three sequential pieces of logic and proves what they promise:

1. **The number normalizer.** OCR text is turned into a number by:
   - a chain of character replacements (OCR-confusable letters become digits, `,` becomes `.`, newlines are dropped);
   - a filter that keeps only digits, `-`, `,` and `.`;
   - a numeric parse.

   The current variant yields a `Double`. It is modelled as an exact decimal: sign, digit mantissa and scale (`normalizer.dfy`, `decimals.dfy`). The older variant yields a 64-bit `Int` and substitutes only `\n` and `o` (`legacy_normalizer.dfy`). Digit strings, filters, replacements, joins and splits live in `strings.dfy`.
2. **The grid.**
   - The view model's `rowsCount`/`columnsCount` observers add or remove one row or column per assignment (`grid.dfy`).
   - The sample and the empty initial grid (`grid.dfy`).
   - The CSV text built by `isCSVAvailable` (`csv.dfy`).
   - The scanner sheet's selection, tap and highlight, plus the Insert button: the current one writes and advances row-major with wrap-around, the older one writes in place (`scanner_sheet.dfy`).
3. **The OCR request queue and the choice of the recognised string.** Both `GFOcrHelper` and `OCREngine` keep a FIFO list of requests. Only a request added to an empty list goes to the recognizer. A completion removes the head and fires its callback once, with the candidate whose box centre is nearest the image centre (`recognition_queue.dfy`). `ocr_frontends.dfy` holds the two classes' public entry points: image size, orientation, the early failure of a `UIImage` without a `CGImage`, and the recognizer settings.

The model follows the code in several places where a reader might expect otherwise:
- Upper-case `O` is not among the replacements. The filter drops it, so `"1O2,5"` reads as 12.5, not 102.5.
- The resize observers ignore how far the counter moved. Each assignment adds exactly one row or column when the new value is larger. Otherwise, an equal value included, they remove exactly one.
- The stepper's `1...Int.max` range is the only guard. Nothing clamps the scanner sheet's selection after a shrink (`ScannerSheet.ShrinkStrandsSelection`).
- The CSV synthesises no first column. The header `x,y1,…` is as wide as the first row and is produced by comparing each row with a prepended all-zero row. A data row of zeros is therefore printed as a second header line (`Csv.ExampleZeroRow`).
- Completing a request never hands the next waiting request to the recognizer. Once two requests are waiting at the same time, the queue stalls for good (`RecognitionQueue.StalledForever`, `RecognitionQueue.SecondRequestStalls`). Recognition is synchronous, so a started request is answered before its call returns, and calls made one after another never stall (`GfOcrHelper.SequentialCallsAnswered`). Two requests can wait at once only when a second call arrives from another thread while the first recognition is still running. The scanner controllers call from one serial queue.
- The older scanner sheet reads and writes `viewModel.selectedCell`, which the older view model does not declare. The model keeps that selection next to the grid, as the newer sheet does.

Source paths below are relative to the repository root.

## Model

| member | source | states |
|---|---|---|
| Normalizer.Clean | NumbersScanner/OCR/OCRScannerView.swift:47-58 | The cleaned text is no longer than the input. It holds only digits, `-` and `.`, so no comma survives. |
| Normalizer.ChainIsCharacterMap | NumbersScanner/OCR/OCRScannerView.swift:48-57 | The ten chained replacements act as one per-character map. Upper-case `O` is not in that map. |
| Normalizer.SubstitutionChain | NumbersScanner/OCR/OCRScannerView.swift:48-57 | The replaced text is no longer than the input, and no character in it is one of the ten patterns. |
| Normalizer.ReplacementsAreFixed | NumbersScanner/OCR/OCRScannerView.swift:48-57 | No replacement produces a character that any pattern matches, so the per-character map leaves every replacement's output alone. |
| Normalizer.ChainIdempotent | NumbersScanner/OCR/OCRScannerView.swift:48-57 | Applying the chain again changes nothing. |
| Normalizer.ChainOrderIrrelevant | NumbersScanner/OCR/OCRScannerView.swift:48-57 | Running the ten replacements last to first gives the same text as running them in the written order. |
| Normalizer.ChainThenFilterIsClean | NumbersScanner/OCR/OCRScannerView.swift:47-58 | The chain followed by the filter, as written, equals reading each character through one table: digits, `-` and `.` stay, `,` becomes `.`, confusable letters become their digit, everything else disappears. |
| Normalizer.CleanFixesCleanText | NumbersScanner/OCR/OCRScannerView.swift:58 | Text already made of digits, `-` and `.` comes out unchanged. |
| Normalizer.CleanIdempotent | NumbersScanner/OCR/OCRScannerView.swift:47-58 | Cleaning a cleaned string changes nothing. |
| Normalizer.ParseNumber | NumbersScanner/OCR/OCRScannerView.swift:44-61 | A number comes back exactly when the cleaned text is an optional `-` and then digits with at most one `.` and at least one digit. Its value is the exact value of that literal. |
| Normalizer.NormalizeShow | NumbersScanner/OCR/OCRScannerView.swift:44-61 | The plain decimal form of any number goes through the normalizer unchanged in value. |
| Normalizer.ExampleUpperCaseO | NumbersScanner/OCR/OCRScannerView.swift:48-60 | `"1O2,5"` reads as 12.5: the `O` is dropped and the comma is the decimal point. |
| Normalizer.ExampleLowerCaseL | NumbersScanner/OCR/OCRScannerView.swift:52 | `"l23"` reads as 123. |
| Normalizer.ExampleUpperCaseS | NumbersScanner/OCR/OCRScannerView.swift:57 | `"S2"` reads as 22. |
| Normalizer.ExampleSpace | NumbersScanner/OCR/OCRScannerView.swift:58 | `"12 34"` reads as 1234: the space is dropped and the digit groups join. |
| Normalizer.ExampleComma | NumbersScanner/OCR/OCRScannerView.swift:48 | `"1,000"` reads as 1.0, because the comma is a decimal point. |
| Normalizer.ExampleTwoCommas | NumbersScanner/OCR/OCRScannerView.swift:60 | `"1,2,3"` has two points after cleaning and gives no number. |
| Normalizer.ExampleRejected | NumbersScanner/OCR/OCRScannerView.swift:60 | `""` and `"-"` give no number. |
| Normalizer.ExampleLettersOnly | NumbersScanner/OCR/OCRScannerView.swift:58-60 | `"abc"` cleans to nothing and gives no number. |
| Normalizer.ExampleTwoPoints | NumbersScanner/OCR/OCRScannerView.swift:60 | `"-4.5.6"` gives no number. |
| Normalizer.ExampleInnerMinus | NumbersScanner/OCR/OCRScannerView.swift:60 | `"1-2"` gives no number: a minus sign is accepted only at the front. |
| Normalizer.CapturedString | NumbersScanner/OCR/OCRScannerView.swift:36-42 | The raw text is always stored. The number is replaced only when the text parses; otherwise the previous number stays. |
| Decimals.ParseDecimal | NumbersScanner/OCR/OCRScannerView.swift:60 | The parse accepts exactly the literals of that shape and returns their exact sign, mantissa and scale. |
| Decimals.DescriptionReadsBack | NumbersScanner/Views/ContentViewModel.swift:58 | A number's Swift text is made of digits, an optional `-` and a point, and it parses back to the same value. |
| Decimals.ParseShow | NumbersScanner/OCR/OCRScannerView.swift:60 | Parsing the plain decimal form of any number gives that number back. |
| LegacyNormalizer.SubstitutionChain | NumbersScanner/OCRView.swift:55-56 | The replaced text is no longer than the input and holds no newline and no `o`. |
| LegacyNormalizer.Clean | NumbersScanner/OCRView.swift:54-57 | The older cleaned text holds only digits and `-`. |
| LegacyNormalizer.CleanReadsEachChar | NumbersScanner/OCRView.swift:54-57 | The two replacements and the filter act per character. `o` becomes `0`. Points, commas, newlines, upper-case `O` and every other character outside digits and `-` disappear. |
| LegacyNormalizer.CleanIsSubsequence | NumbersScanner/OCRView.swift:55-57 | The cleaned text is a subsequence of the replaced text, and cleaning it again changes nothing. |
| LegacyNormalizer.ParseInt | NumbersScanner/OCRView.swift:59 | A number comes back exactly when the text is an optional `-` and then at least one digit, and its value lies in the 64-bit range. |
| LegacyNormalizer.ParseNumber | NumbersScanner/OCRView.swift:51-60 | A number comes back exactly when the cleaned text is an optional `-` and at least one digit whose value lies in the 64-bit range. The number is that value. |
| LegacyNormalizer.ParseIntToString | NumbersScanner/OCRView.swift:59 | Every 64-bit integer's decimal form parses back to it. |
| LegacyNormalizer.NormalizeIntToString | NumbersScanner/OCRView.swift:51-60 | The decimal form of any 64-bit integer goes through the older normalizer unchanged. |
| LegacyNormalizer.ExamplePointDropped | NumbersScanner/OCRView.swift:52-59 | `"3.5"` reads as 35: the point is dropped, not taken as a separator. |
| LegacyNormalizer.ExampleLetterO | NumbersScanner/OCRView.swift:56 | `"-1o"` reads as -10. |
| LegacyNormalizer.ExampleRejected | NumbersScanner/OCRView.swift:59 | `""` and `"-"` give no number. |
| LegacyNormalizer.ExampleInnerMinus | NumbersScanner/OCRView.swift:59 | `"1-2"` keeps its inner minus after cleaning and gives no number. |
| LegacyNormalizer.ExampleRange | NumbersScanner/OCRView.swift:59 | One past `Int.max` gives no number. `Int.min` parses. |
| LegacyNormalizer.CapturedStrings | NumbersScanner/OCRView.swift:28-34 | Only the first string is used. On a parse it is replaced by text that reads back as the parsed number. Without strings, or when the parse fails, nothing changes. |
| Grid.SetRowsCount | NumbersScanner/Views/ContentViewModel.swift:13-19 | A larger value appends one empty row of `columnsCount` cells. Any other value removes exactly the last row. Existing rows are untouched. Removing from an empty grid is excluded, because it traps. |
| Grid.SetColumnsCount | NumbersScanner/Views/ContentViewModel.swift:23-33 | A larger value appends one empty cell to every row. Any other value removes every row's last cell. All other cells are untouched. |
| Grid.RowStepKeepsShape | NumbersScanner/TableManipulatorView.swift:15 | A stepper step on the row count keeps exactly `rowsCount` rows of `columnsCount` cells. |
| Grid.ColumnStepKeepsShape | NumbersScanner/TableManipulatorView.swift:16 | A stepper step on the column count keeps the grid rectangular with `columnsCount` cells per row. |
| Grid.RowStepRoundTrip | NumbersScanner/Views/ContentViewModel.swift:13-19 | Stepping the row count up and back down restores the view model. |
| Grid.ColumnStepRoundTrip | NumbersScanner/Views/ContentViewModel.swift:23-33 | Stepping the column count up and back down restores the view model. |
| Grid.RowJumpBreaksShape | NumbersScanner/Views/ContentViewModel.swift:13-19 | Assigning the same value, or one more than a step away, leaves the row count out of step with the rows. |
| Grid.InitSample | NumbersScanner/Views/ContentViewModel.swift:39-42 | Whatever the counts, the grid is four rows of the sample row 0, 1, 2, 3. |
| Grid.InitSampleShapedIff | NumbersScanner/Views/ContentViewModel.swift:39-42 | The sample grid matches its counts exactly when both are 4. |
| Grid.InitEmpty | NumbersScanner/ContentViewModel.swift:37-41 | The older view model starts with `rowsCount` rows of `columnsCount` empty cells. |
| Csv.RowLine | NumbersScanner/Views/ContentViewModel.swift:52-63 | A row equal to the zero row splits at commas into the header fields `x`, `y1`, …. Any other non-empty row splits back into its own fields, with empty fields for empty cells. The line holds no newline unless a cell's text does. |
| Csv.CsvLines | NumbersScanner/Views/ContentViewModel.swift:50-64 | There is one line per row after the header line. Rows equal to the zero row repeat the header line. Every other non-empty row splits back into its fields. |
| Csv.CsvBody | NumbersScanner/Views/ContentViewModel.swift:50-64 | When no cell's text contains a comma or a newline, the text splits at newlines into the header plus one line per row. A zero row reads back as the header. Any other row splits at commas back into its fields, left to right, with empty fields for empty cells. |
| Csv.HeaderReadBack | NumbersScanner/Views/ContentViewModel.swift:55 | The header's fields are `x`, then `y1` … `y(C-1)`, and they split back apart. |
| Csv.IsCsvAvailable | NumbersScanner/Views/ContentViewModel.swift:48-73 | The answer is true exactly when writing the text succeeds. When no cell's text contains a separator, the written text reads back as the grid: the header line, a header line for each zero row, and each other row's fields. |
| Csv.DescriptionPlain | NumbersScanner/Views/ContentViewModel.swift:57-58 | A number's Swift text contains no comma and no newline. |
| Csv.ExportReadsBack | NumbersScanner/Views/ContentViewModel.swift:48-73 | With numbers printed as Swift prints a `Double`, the CSV written for any grid reads back as the header line, a header line for each zero row, and each other non-empty row's printed fields. |
| Csv.ExampleTwoByTwo | NumbersScanner/Views/ContentViewModel.swift:50-64 | The grid [[1,2],[3,4]] gives `x,y1`, `1.0,2.0`, `3.0,4.0` on three lines. The first column holds data and there is no trailing newline. |
| Csv.ExampleZeroRow | NumbersScanner/Views/ContentViewModel.swift:50-64 | The grid [[0,0],[1,empty]] gives `x,y1`, `x,y1`, `1.0,`: the row of zeros is printed as a second header line, and the empty cell gives an empty field. |
| ScannerSheet.Tap | NumbersScanner/Views/ScannerSheetView.swift:98-99 | A tap on a cell selects it and leaves the grid alone. The older sheet does the same at NumbersScanner/ScannerSheetView.swift:77-78. |
| ScannerSheet.TapSelectsTapped | NumbersScanner/Views/ScannerSheetView.swift:114-116 | After a tap, a cell is highlighted exactly when it is the tapped cell. |
| ScannerSheet.ExactlyOneSelected | NumbersScanner/Views/ScannerSheetView.swift:114-116 | Exactly one cell of the grid is highlighted: the selection. |
| ScannerSheet.Insert | NumbersScanner/Views/ScannerSheetView.swift:121 | The scanned value, or an empty cell for no value, lands in the selected cell. Every other cell is unchanged. |
| ScannerSheet.Advance | NumbersScanner/Views/ScannerSheetView.swift:123-126 | The column moves one right. At the row's end it wraps to 0 and the row moves down. After the last cell the selection returns to (0, 0). The result is always in bounds. |
| ScannerSheet.AdvanceLinear | NumbersScanner/Views/ScannerSheetView.swift:123-126 | In row-major numbering, one advance is +1 modulo rows × columns. |
| ScannerSheet.AdvanceCycle | NumbersScanner/Views/ScannerSheetView.swift:123-126 | rows × columns advances return to the start, visit pairwise different cells on the way, and reach every cell. |
| ScannerSheet.InsertAndAdvance | NumbersScanner/Views/ScannerSheetView.swift:120-126 | The Insert button writes the cell, keeps the counts, advances the selection, and keeps the selection in bounds. |
| ScannerSheet.FillRowMajor | NumbersScanner/Views/ScannerSheetView.swift:120-126 | From (0, 0), the n-th insert lands in the n-th cell in row-major order. Cells not yet reached keep their values. |
| ScannerSheet.FillWholeGrid | NumbersScanner/Views/ScannerSheetView.swift:120-126 | Inserting exactly rows × columns values from (0, 0) fills the grid in reading order and ends back at (0, 0). |
| ScannerSheet.InsertInPlace | NumbersScanner/ScannerSheetView.swift:97-100 | The older Insert writes the selected cell and leaves the selection where it was. |
| ScannerSheet.InsertInPlaceOverwrites | NumbersScanner/ScannerSheetView.swift:97-100 | Two older inserts in a row leave only the second value. |
| ScannerSheet.ShrinkStrandsSelection | NumbersScanner/Views/ScannerSheetView.swift:121 | A legal stepper step can remove the selected row, after which the selection is out of bounds. |
| ScannerSheet.InitialSheetValid | NumbersScanner/Views/ScannerSheetView.swift:19 | The initial selection (0, 0) is in bounds on the default grid. |
| RecognitionQueue.CentreDistance | NumbersScanner/GFOcrHelper.swift:131-136 | The squared distance from the box centre (origin plus half the size) to (0.5, 0.5) is never negative. |
| RecognitionQueue.CandidatesExact | NumbersScanner/GFOcrHelper.swift:128-139 | Exactly the observations with a top candidate contribute one. There are none exactly when no observation has one. |
| RecognitionQueue.Nearest | NumbersScanner/GFOcrHelper.swift:140-143 | The first entry after sorting by distance is a candidate at minimal distance, and the earliest such. |
| RecognitionQueue.Choose | NumbersScanner/GFOcrHelper.swift:121-143 | A throw or non-text results give no string. Observations give a string exactly when some observation has a candidate. |
| RecognitionQueue.ChosenObservation | NumbersScanner/GFOcrHelper.swift:128-143 | The chosen candidate belongs to an observation with a top candidate at the least distance, and every earlier observation with a candidate is strictly farther away. |
| RecognitionQueue.ChooseNearest | NumbersScanner/GFOcrHelper.swift:128-143 | A string is chosen exactly when some observation has a top candidate. It is the top candidate of an observation whose box centre is no farther from the image centre than any other candidate's, and the first such in observation order. |
| RecognitionQueue.ReplyOf | NumbersScanner/GFOcrHelper.swift:154-158 | A string gives success with that string. No string gives failure. |
| RecognitionQueue.AddRequest | NumbersScanner/GFOcrHelper.swift:83-93 | The request goes to the tail. It is handed to the recognizer exactly when the list was empty, and it is then the head. |
| RecognitionQueue.CurrentRequestProcessed | NumbersScanner/GFOcrHelper.swift:148-159 | An empty list fires nothing. Otherwise the head is removed and only its callback fires, with the reply for the chosen string. |
| RecognitionQueue.CompletionOnEmpty | NumbersScanner/GFOcrHelper.swift:149 | A completion on an empty list changes nothing and fires nothing. |
| RecognitionQueue.Step | NumbersScanner/GFOcrHelper.swift:88-92 | An addition appends, fires nothing, and starts the request exactly when the list was empty. A completion never starts anything. Each step keeps "in flight implies non-empty". |
| RecognitionQueue.RunFifo | NumbersScanner/GFOcrHelper.swift:89-151 | Over any trace, the callbacks fired followed by the requests still waiting are the requests waiting before followed by those submitted, in order. |
| RecognitionQueue.FifoFromIdle | NumbersScanner/GFOcrHelper.swift:89-151 | From the empty queue, callbacks fire in submission order, and the waiting requests are exactly the submitted ones not yet answered. |
| RecognitionQueue.FiresAtMostOnce | NumbersScanner/GFOcrHelper.swift:148-159 | With distinct request identities, no callback fires twice. |
| RecognitionQueue.CompletionNeverStarts | NumbersScanner/GFOcrHelper.swift:148-159 | A completion never hands a request to the recognizer, and an addition never fires a callback. |
| RecognitionQueue.CompletionFiresHead | NumbersScanner/GFOcrHelper.swift:109-159 | Completing the in-flight request removes the head and fires its callback with the chosen string. A recognizer throw or non-text results fire a failure. |
| RecognitionQueue.StalledForever | NumbersScanner/GFOcrHelper.swift:90-92 | Once requests wait with none in flight, no later event starts or answers any of them, and new requests only pile up. |
| RecognitionQueue.SecondRequestStalls | NumbersScanner/GFOcrHelper.swift:89-92 | Two additions followed by one completion answer the first request and leave the second waiting for good. |
| RecognitionQueue.SynchronousDrains | NumbersScanner/GFOcrHelper.swift:89-114 | When each request is answered before the next is added, every request is started and answered in order, and the queue ends empty. |
| OcrImages.RememberSize | NumbersScanner/GFOcrHelper.swift:64-66 | A zero size is replaced by the new image's size. A known size is kept. |
| GfOcrHelper.Init | NumbersScanner/GFOcrHelper.swift:31-33 | A new helper has an empty queue and a zero image size. |
| GfOcrHelper.Process | NumbersScanner/GFOcrHelper.swift:97-107 | The recognizer gets the request's image and orientation, at accurate level and without language correction. |
| GfOcrHelper.GetTextFromCgImage | NumbersScanner/GFOcrHelper.swift:59-68 | The size is remembered. On an empty queue, the recognizer runs on this image and orientation, and the request's callback fires with the chosen string before the call returns. The queue is then empty again, also when `perform` throws (GFOcrHelper.swift:97-159). Otherwise the request waits at the tail and nothing fires. |
| GfOcrHelper.GetTextFromUiImage | NumbersScanner/GFOcrHelper.swift:39-51 | An image without a `CGImage` fails at once and leaves the helper unchanged. Otherwise the image goes through the same path upright, with its point size remembered: answered within the call on an empty queue, queued otherwise. |
| GfOcrHelper.SequentialCallsAnswered | NumbersScanner/GFOcrHelper.swift:59-159 | Calls made one after another, starting from an empty queue, each get their own callback in order, with their own recognition's string. The queue is empty at the end. |
| GfOcrHelper.FinishRecognition | NumbersScanner/GFOcrHelper.swift:109-159 | A completion with a request in flight fires the head's callback with the chosen string. The image size and settings are unchanged. |
| GfOcrHelper.FastRecognitionIgnored | NumbersScanner/GFOcrHelper.swift:97-107 | The fast-recognition flag has no effect on the recognizer call or the queue. |
| GfOcrHelper.ImageSizeKept | NumbersScanner/GFOcrHelper.swift:47-66 | Once a size is known, neither entry point changes it. |
| OcrEngine.Process | NumbersScanner/OCR/OCREngine.swift:62-72 | The recognizer gets the request's image, always oriented `.right`, at accurate level and without language correction. |
| OcrEngine.GetTextFromImage | NumbersScanner/OCR/OCREngine.swift:35-58 | The size is remembered. On an empty queue, the recognizer runs on the image oriented `.right`, and the callback fires with the chosen string before the call returns. The queue is then empty again, also when `perform` throws (OCREngine.swift:62-127). Otherwise the request waits at the tail and nothing fires. |
| OcrEngine.FinishRecognition | NumbersScanner/OCR/OCREngine.swift:74-127 | A completion with a request in flight fires the head's callback with the chosen string, and the image size is unchanged. |
| OcrEngine.ImageSizeSetOnce | NumbersScanner/OCR/OCREngine.swift:39-41 | An engine without a size takes the image's pixel size, even a zero one. A nonzero size is never replaced by a later image. |

## Left out

- Camera capture, permissions, sample-buffer queues and preview layers (both `OCRScannerViewController.swift` files). This is device I/O.
- The Vision framework. A recognition's outcome is an input to the model: a throw, non-text results, or a list of observations with an optional top candidate and a box each.
- RecognitionQueue.CentreDistance: the model uses the squared distance instead of `CGPoint.distanceTo` (`sqrt` and `pow` in NumbersScanner/Extensions/CGPointExtension.swift). The square root is increasing, so the chosen candidate is the same. Floating-point rounding is not modelled.
- RecognitionQueue.Nearest: among candidates at equal distance, the first in observation order is chosen, and `RecognitionQueue.ChooseNearest` states this for the observations. This assumes the sort keeps equal elements in order, which Swift's `sorted(by:)` does not document.
- Swift `Double` rounding. Values are exact decimals, so a literal like `0.1` is kept exactly rather than rounded to binary. The CSV takes the text of a value (`show`) and its zero test (`isZero`) as parameters. The examples and `Csv.ExportReadsBack` use `Decimals.Description` and `Decimals.IsZero`.
- Decimals.DescriptionReadsBack: `Description` gives Swift's plain notation only. Swift switches to exponent form for very large and very small magnitudes (`1e+16`, `1e-05`); the model never does.
- Writing the CSV file and the temporary file's UUID name. The write's success is a parameter.
- Swift `Character`s are grapheme clusters; the model works on Unicode scalars. The two differ when a combining mark, a keycap sign or a zero-width joiner attaches to a kept character. Swift compares and drops the whole cluster: `"1\u{301}2"` cleans to `"2"` in Swift, because the cluster `1\u{301}` is not an accepted letter, but to `"12"` in the model.
- Threading. The entry points finish a started recognition inside the call. A second call that arrives from another thread while `perform` runs appears only in the `RecognitionQueue` traces of separate additions and completions, not in the entry points. Callbacks are identified by a request id.
- GfOcrHelper.GetTextFromCgImage, GfOcrHelper.GetTextFromUiImage, OcrEngine.GetTextFromImage: the outcome of `perform` is a parameter. The model assumes that when `perform` does not throw, Vision calls the completion handler exactly once before `perform` returns, and that when it throws, the handler is not called.
- RecognitionQueue.Step: a completion with no request in flight is ignored. The recognizer only reports on requests it was handed, so such a completion cannot occur. The bare `currentRequestProcessed` on an empty list is modelled by `RecognitionQueue.CurrentRequestProcessed`.
- The error objects built by `GFLiveScannerUtils.swift`. Every failure callback is modelled as one `Failure`.
- Image cropping, pixel-buffer conversion and the orientation table in `GFLiveScannerUtils.swift`. These are image processing.
- The SwiftUI and UIKit presentation files: `ContentView.swift`, `NumbersScannerApp.swift`, `ChartView.swift`, `ShareSheetView.swift`, `ViewExtension.swift`. `TableManipulatorView.swift` serves only as the source of the stepper's ±1, at-least-1 steps.
- Scrolling to the selection and the cells' `formatted()` text in the scanner sheets. These are presentation.
