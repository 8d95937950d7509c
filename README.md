# NoHttp `DownloadConnection.download`, modelled and proved in Dafny

NoHttp's download engine makes one attempt at a resumable HTTP download.
`DownloadConnection.download(request, what, listener)` runs these steps in order:

- It checks the network and the URL.
- It deals with an existing final file `<dir>/<name>`: for a range request it reports the download as already done; otherwise it deletes the file.
- It reconciles the temp file `<name>.temp`. A range request resumes from the existing bytes if it may read and write the file. Otherwise the file is recreated empty.
- For a range request it sends a `Range: bytes=<offset>-` header.
- It works out the total length from the status code and either the `Content-Range` header or the content length.
- It checks the free storage, then calls `onStart`.
- It copies the body chunk by chunk into the temp file through a `RandomAccessFile`. It polls the cancel flag before each write and reports throttled percentages.
- It renames the temp file to the final file and calls `onFinish`, unless the download was canceled.

Exceptions become `onDownloadError` with a code chosen by the exception's class. A `finally` block deletes the temp file of a request that is not a range request. Everything the engine learns reaches it as a result; it reports only through the listener.

The project has four layers:

- `download_model.dfy` (module `DownloadModel`) is a value-level specification of one call, `Run`. It is a function of an `Env` that holds everything the environment answers:
  - the network and URL checks;
  - the status code, the `Content-Range` header and the content length;
  - the free storage;
  - the body as a sequence of chunks;
  - the cancel flag, one value per poll;
  - whether `renameTo` succeeds;
  - at most one exception, with the step that throws it, its class and its message.

  The result is an `Outcome`: the listener calls, the final states of the two files, the `Range` header sent and whether a connection was made. `java_lang.dfy` (module `JavaLang`) holds Java's `long` and `int` wrap-around, truncating `/` and `%`, decimal printing, `Long.parseLong` and `String.indexOf`.
- `local_file.dfy` (module `Files`) is the class `LocalFile`, a file on disk whose fields the engine changes: existence, permissions and bytes.
- `download_connection.dfy` (module `DownloadConnection`) is the code itself, written imperatively:
  - `Download`, `TryDownload`, `Exchange` and `Transfer` follow the early returns of the source;
  - `CopyBody` is the `while` loop;
  - `ReportProgress` is the throttle.

  `Download`, `TryDownload`, `Exchange` and `Transfer` change the temp and final `LocalFile` objects in place, `CopyBody` changes only the temp file, and `ReportProgress` changes nothing. Each is proved to produce exactly what the matching `DownloadModel` function describes.
- `download_properties.dfy`, `run_properties.dfy`, `run_errors.dfy`, `run_files.dfy` and `run_progress.dfy` contain the properties, proved about the specification:
  - the copy loop;
  - the shape of the listener trace;
  - the cause of each error code;
  - the headers;
  - the files left on disk;
  - the progress values;
  - three concrete calls where the code departs from the one-terminal-call design.

## Model

| member | source | states |
|---|---|---|
| DownloadConnection.Download | Library/src/com/yolanda/nohttp/download/DownloadConnection.java:83-245 | The whole method: the two pre-checks, the `try` block, the `catch` clauses that report the pending exception and the `finally` that deletes the temp file of a non-range request. The listener calls, both files and the `Range` header equal `DownloadModel.Run` of the initial file states. |
| DownloadConnection.TryDownload | Library/src/com/yolanda/nohttp/download/DownloadConnection.java:99-132 | The final-file short-circuit and deletion, and the temp-file reconciliation (resume, or delete and recreate empty with owner read and write), equal `DownloadModel.Try`. |
| DownloadConnection.Exchange | Library/src/com/yolanda/nohttp/download/DownloadConnection.java:134-179 | Connection, `Range` header, status and length checks and storage gate, each ending the call where the source returns, equal `DownloadModel.Exchange`. |
| DownloadConnection.Transfer | Library/src/com/yolanda/nohttp/download/DownloadConnection.java:181-220 | `onStart`, the copy loop, the second cancel poll and the rename followed by `onFinish` equal `DownloadModel.Transfer`. |
| DownloadConnection.CopyBody | Library/src/com/yolanda/nohttp/download/DownloadConnection.java:191-215 | The loop writes each chunk at `count` into the temp file, so the file's other fields are unchanged. The bytes, `count`, `oldProgress`, the listener calls, the chunk it stopped at, whether it was canceled and the pending exception all equal `DownloadModel.CopyFrom`. |
| DownloadConnection.ReportProgress | Library/src/com/yolanda/nohttp/download/DownloadConnection.java:207-213 | The new `oldProgress` and the `onProgress` call, if any, are those of `NextLast` and `Reported`: a report exactly when the total is non-zero and the percentage passes the throttle. |
| Files.LocalFile.Delete | Library/src/com/yolanda/nohttp/download/DownloadConnection.java:113 | After `delete()` the file is absent; the model takes every delete as succeeding (see "Left out"). |
| Files.LocalFile.CreateNewFile | Library/src/com/yolanda/nohttp/download/DownloadConnection.java:129-131 | `createNewFile` with `setReadable(true, true)` and `setWritable(true, true)`: a missing file becomes empty, an existing one keeps its bytes, and the owner may read and write it. |
| Files.LocalFile.WriteBytes | Library/src/com/yolanda/nohttp/download/DownloadConnection.java:191-205 | `seek(pos)` then `write`: the bytes before `pos` are kept, the chunk follows, and any tail past it is kept (`DownloadModel.WriteAt`). |
| Files.LocalFile.RenameTo | Library/src/com/yolanda/nohttp/download/DownloadConnection.java:218 | On success the destination becomes this file and this file is gone; on failure nothing changes. |
| DownloadModel.WriteAt | Library/src/com/yolanda/nohttp/download/DownloadConnection.java:205 | The length after the write, the prefix before `pos` kept, the chunk at `pos`, and the old tail kept beyond it. |
| DownloadModel.CopyFrom | Library/src/com/yolanda/nohttp/download/DownloadConnection.java:199-215 | The loop stops within the body, and `count` remains the file's length. |
| DownloadModel.Run | Library/src/com/yolanda/nohttp/download/DownloadConnection.java:83-245 | The value-level specification of one call: the network and URL pre-checks, each giving its single error, then `Conclude` of `Try`. `DownloadConnection.Download` is proved equal to it; `RunProperties.RunTrace`, `RunErrors.ErrorsExplained`, `RunErrors.StartGate`, `RunFiles.FinishedDownloadContents` and `RunProgress.RunProgressValues` state its properties. |
| DownloadModel.Try | Library/src/com/yolanda/nohttp/download/DownloadConnection.java:99-132 | The final-file short-circuit (100 percent and `onFinish` for a range request), the deletion of a stale final file otherwise, and the temp-file reconciliation before `Exchange`; its properties are `RunProperties.TryTrace`, `RunErrors.TryExplained` and `RunFiles.FinalFileShortCircuit`. |
| DownloadModel.Exchange | Library/src/com/yolanda/nohttp/download/DownloadConnection.java:134-179 | Connection, `Range` header, status, total length and storage gate, returning where the source returns; its properties are `RunProperties.ExchangeTrace`, `RunErrors.ExchangeExplained` and `RunErrors.ExchangeHeader`. |
| DownloadModel.Transfer | Library/src/com/yolanda/nohttp/download/DownloadConnection.java:181-220 | `onStart`, opening the body, the copy loop, the second cancel poll, the rename and `onFinish`; its properties are `RunProperties.TransferTrace`, `RunFiles.TransferFinished` and `RunFiles.TransferCanceled`. |
| DownloadModel.Conclude | Library/src/com/yolanda/nohttp/download/DownloadConnection.java:222-245 | The `catch` clauses map a pending exception to its code and message after the trace, and `finally` deletes a non-range temp file; its properties are `RunProperties.ConcludeTrace`, `RunErrors.ConcludeExplained` and `RunFiles.NonRangeLeavesNoTemp`. |
| DownloadModel.TotalLength | Library/src/com/yolanda/nohttp/download/DownloadConnection.java:151-172 | The total from the status code: a 206 range answer takes `Content-Range` (0 when absent or empty), a 200 answer takes the content length, any other status is an error; `RunErrors.TotalLengthErrors` states when it fails and with which error. |
| DownloadModel.ContentRangeTotal | Library/src/com/yolanda/nohttp/download/DownloadConnection.java:159 | The `long` after the first `/` of `Content-Range`; `RunErrors.ContentRangeOfRfcForm`, `RunErrors.ContentRangeUnknownLength` and `RunErrors.ContentRangeWithoutSlash` state its value on each form. |
| DownloadModel.Progress | Library/src/com/yolanda/nohttp/download/DownloadConnection.java:208 | `(int) (count * 100 / totalLength)` in Java arithmetic; `DownloadProperties.ProgressIsPercent` and `RunProgress.ProgressOfUnknownLength` state its value. |
| DownloadModel.Passes | Library/src/com/yolanda/nohttp/download/DownloadConnection.java:209 | The throttle: the percentage is divisible by 2 or 3 and differs from the last one reported; `DownloadProperties.CopyThrottles` and `RunProgress.HundredPasses` state it of the reported values. |
| DownloadModel.Reports | Library/src/com/yolanda/nohttp/download/DownloadConnection.java:207-209 | A report happens exactly when the total is non-zero and the percentage passes the throttle; `DownloadProperties.ZeroTotalReportsNothing` states that a total of 0 reports nothing. |
| DownloadModel.Reconciled | Library/src/com/yolanda/nohttp/download/DownloadConnection.java:116-132 | The temp file resumed when a range request may read and write it, and recreated empty otherwise; `RunFiles.ExchangeBindsTemp` and `RunFiles.RangeKeepsResumedBytes` state its use. |
| DownloadModel.ResumeOffset | Library/src/com/yolanda/nohttp/download/DownloadConnection.java:116-121 | The resume offset is the temp file's length when it is resumed and 0 otherwise; `RunErrors.RangeHeaderSent` and `RunErrors.RangeHeaderRoundTrip` state that it is the offset of the `Range` header. |
| DownloadModel.CodeOf | Library/src/com/yolanda/nohttp/download/DownloadConnection.java:222-233 | The `catch` clauses' codes by exception class; `RunErrors.ConcludeExplained` and `RunErrors.FaultReported` state that a pending exception is reported with its code. |
| JavaLang.WrapLong | Library/src/com/yolanda/nohttp/download/DownloadConnection.java:208 | `long` arithmetic: the result is the one `long` congruent to the exact value modulo 2^64, so a value that is already a `long` is unchanged. |
| JavaLang.WrapInt | Library/src/com/yolanda/nohttp/download/DownloadConnection.java:208 | The `(int)` cast: the result is the one `int` congruent to the value modulo 2^32, so an `int` is unchanged. |
| JavaLang.Quot | Library/src/com/yolanda/nohttp/download/DownloadConnection.java:208 | Java's `/` truncates: the magnitude is the quotient of the magnitudes, and a non-zero result is positive exactly when the signs agree. |
| JavaLang.QuotOfNatural | Library/src/com/yolanda/nohttp/download/DownloadConnection.java:208 | On non-negative operands Java's `/` is ordinary division. |
| JavaLang.QuotMagnitude | Library/src/com/yolanda/nohttp/download/DownloadConnection.java:208 | The magnitude of a truncating quotient is the floor quotient of the magnitudes. |
| JavaLang.Rem | Library/src/com/yolanda/nohttp/download/DownloadConnection.java:209 | Java's `%` truncates toward zero, its sign following the dividend; `JavaLang.RemOfNatural` states that it agrees with Dafny's `%` on non-negative operands. |
| JavaLang.RemOfNatural | Library/src/com/yolanda/nohttp/download/DownloadConnection.java:209 | On non-negative operands Java's `%` is the ordinary remainder. |
| JavaLang.Decimal | Library/src/com/yolanda/nohttp/download/DownloadConnection.java:136 | The decimal text of a `long` is digits only, without leading zeros. |
| JavaLang.JavaString | Library/src/com/yolanda/nohttp/download/DownloadConnection.java:171 | `"" + x`: the text is non-empty and starts with `-` exactly for a negative number. |
| JavaLang.ParseLong | Library/src/com/yolanda/nohttp/download/DownloadConnection.java:159 | `Long.parseLong` accepts only an optional sign followed by at least one digit, with a value that is a `long`; it rejects the empty string and a lone sign. |
| JavaLang.IndexOf | Library/src/com/yolanda/nohttp/download/DownloadConnection.java:160 | `indexOf` returns -1 exactly when the character is absent, and otherwise its first position. |
| JavaLang.ValueOfDecimal | Library/src/com/yolanda/nohttp/download/DownloadConnection.java:136 | Reading back the decimal text of a number gives the number. |
| JavaLang.ParseLongRoundTrip | Library/src/com/yolanda/nohttp/download/DownloadConnection.java:160 | `Long.parseLong` inverts the printing of every `long`. |
| JavaLang.IndexOfAfterPrefix | Library/src/com/yolanda/nohttp/download/DownloadConnection.java:160 | `indexOf` finds a separator that the text before it does not contain. |
| DownloadProperties.PolledSticky | Library/src/com/yolanda/nohttp/download/DownloadConnection.java:200-217 | Under a sticky flag, a cancel seen at one poll is seen at every later poll. |
| DownloadProperties.CopyStopped | Library/src/com/yolanda/nohttp/download/DownloadConnection.java:199-203 | Where the loop stops (a read exception, end of stream, the flag set, or a write exception), nothing is written and no percentage is reported. Only the flag adds `onCancel`. |
| DownloadProperties.CopyWrites | Library/src/com/yolanda/nohttp/download/DownloadConnection.java:191-206 | After the loop the file holds its first `offset` bytes followed by every chunk written, in order, and `count` is the offset plus their lengths. |
| DownloadProperties.CopyStops | Library/src/com/yolanda/nohttp/download/DownloadConnection.java:199-204 | Every chunk written was polled with the flag clear. The loop stops on the chunk whose poll saw the flag set, without writing it, or at the end of the stream, or on the injected exception. |
| DownloadProperties.CopyFaultAt | Library/src/com/yolanda/nohttp/download/DownloadConnection.java:199-205 | Conversely to `CopyStops`: an exception thrown by the read of chunk `j`, or by its write after a clear poll, with every earlier poll clear, stops the loop at `j` with that exception pending and no cancellation. |
| DownloadProperties.CopyEventKinds | Library/src/com/yolanda/nohttp/download/DownloadConnection.java:199-215 | The loop calls only `onProgress`, plus `onCancel` last when the flag stopped it. |
| DownloadProperties.CopyThrottles | Library/src/com/yolanda/nohttp/download/DownloadConnection.java:196-213 | Each reported percentage is divisible by 2 or 3 and differs from the previous one, the first from 0. `oldProgress` ends as the last one reported. |
| DownloadProperties.ZeroTotalReportsNothing | Library/src/com/yolanda/nohttp/download/DownloadConnection.java:207 | With a total of 0 the copy loop reports no percentage at all, from any chunk on. |
| DownloadProperties.ProgressIsPercent | Library/src/com/yolanda/nohttp/download/DownloadConnection.java:208 | For `0 <= count <= total` under the overflow bound, the Java expression is the exact floor percentage, between 0 and 100. |
| DownloadProperties.CopyProgressRises | Library/src/com/yolanda/nohttp/download/DownloadConnection.java:196-213 | With a positive total that the body cannot exceed, the reported percentages rise strictly and stay at most 100. |
| DownloadProperties.RisingIsSorted | Library/src/com/yolanda/nohttp/download/DownloadConnection.java:196-213 | Percentages that rise from `last` are strictly increasing, above `last` and at most 100. |
| RunProperties.TransferTrace | Library/src/com/yolanda/nohttp/download/DownloadConnection.java:181-220 | After `onStart` come progress reports, then `onCancel` and `onFinish` where they occur. Under a sticky flag at most the last call ends the download, and if none does, the flag was first seen by the poll after the loop. |
| RunProperties.ExchangeTrace | Library/src/com/yolanda/nohttp/download/DownloadConnection.java:134-179 | The response checks keep the trace's shape. |
| RunProperties.TryTrace | Library/src/com/yolanda/nohttp/download/DownloadConnection.java:99-220 | So does the whole `try` block. |
| RunProperties.ConcludeTrace | Library/src/com/yolanda/nohttp/download/DownloadConnection.java:222-233 | The `catch` clauses append the single error to a trace that has not ended. |
| RunProperties.RunTrace | Library/src/com/yolanda/nohttp/download/DownloadConnection.java:83-245 | The listener hears at least one call, and every call is for download `what`. `onStart` can only be first, and `onDownloadError` or `onFinish` only last, so there is at most one error. Under a sticky flag exactly the last call ends the download, unless the cancel was first seen after the loop. |
| RunErrors.TotalLengthErrors | Library/src/com/yolanda/nohttp/download/DownloadConnection.java:155-173 | Resolving the total length fails exactly for a non-empty `Content-Range` that does not parse on a 206 range answer, and for any other status than 200 or a 206 range answer. The code and message are those of the cause. |
| RunErrors.TransferExplained | Library/src/com/yolanda/nohttp/download/DownloadConnection.java:181-220 | The copy and finish report no error themselves, and any exception pending is the injected one. |
| RunErrors.ExchangeExplained | Library/src/com/yolanda/nohttp/download/DownloadConnection.java:134-179 | Every error reported by the response checks is explained by its cause. |
| RunErrors.TryExplained | Library/src/com/yolanda/nohttp/download/DownloadConnection.java:99-220 | The same holds for the whole `try` block. |
| RunErrors.ConcludeExplained | Library/src/com/yolanda/nohttp/download/DownloadConnection.java:222-233 | The classes map to codes: socket timeout to `ERROR_DOWNLOAD_TIMEOUT`, unknown host to `ERROR_SERVER_NOT_FOUND`, anything else to `ERROR_OTHER`, each with the exception's message. |
| RunErrors.ErrorsExplained | Library/src/com/yolanda/nohttp/download/DownloadConnection.java:87-233 | Each `onDownloadError` names its cause, with that cause's message: no network, bad URL, timeout, unknown host, a `Content-Range` that does not parse, too little storage, or another exception or a bad status. |
| RunErrors.PrecheckErrors | Library/src/com/yolanda/nohttp/download/DownloadConnection.java:87-95 | With no network, or with a bad URL, the listener hears just that error. No connection is made and neither file is touched. |
| RunErrors.EarlyFaultReported | Library/src/com/yolanda/nohttp/download/DownloadConnection.java:116-141 | If creating the temp file, obtaining the connection or reading the status throws, the exception is the only call the listener hears. |
| RunErrors.FaultReported | Library/src/com/yolanda/nohttp/download/DownloadConnection.java:222-233 | An exception that leaves the `try` block is the injected one, reported last under its class's code. |
| RunErrors.BodyFaultReported | Library/src/com/yolanda/nohttp/download/DownloadConnection.java:181-191 | If opening the body throws, the listener hears `onStart` and then that error. |
| RunErrors.ReadFaultReported | Library/src/com/yolanda/nohttp/download/DownloadConnection.java:181-233 | If reading chunk `j` of the body throws (a read timeout, say) with every earlier poll clear, the listener hears `onStart`, the loop's progress reports for the chunks before `j`, and then the error under its class's code, such as `ERROR_DOWNLOAD_TIMEOUT`. |
| RunErrors.WriteFaultReported | Library/src/com/yolanda/nohttp/download/DownloadConnection.java:181-233 | If writing chunk `j` throws with every poll up to its own clear, the listener hears `onStart`, the loop's progress reports for the chunks before `j`, and then the error under its class's code. |
| RunErrors.CopyFaultConcluded | Library/src/com/yolanda/nohttp/download/DownloadConnection.java:191-233 | A copy loop that stops with the injected exception pending ends the call with `onStart`, the loop's calls and that error. |
| RunErrors.StartGate | Library/src/com/yolanda/nohttp/download/DownloadConnection.java:152-181 | `onStart` is heard exactly when the status line was read, a total length results and the storage holds it. A failed check is the only call, and a storage failure writes nothing. |
| RunErrors.ExchangeHeader | Library/src/com/yolanda/nohttp/download/DownloadConnection.java:134-139 | The connection is made unless obtaining it throws, and a range request then sends `bytes=<offset>-`. |
| RunErrors.RangeHeaderSent | Library/src/com/yolanda/nohttp/download/DownloadConnection.java:116-139 | The `Range` header goes out exactly when a range request reaches the connection, carrying the resume offset, even when that offset is 0. The connection is made exactly when it is reached. |
| RunErrors.RangeHeaderRoundTrip | Library/src/com/yolanda/nohttp/download/DownloadConnection.java:136 | The header is `bytes=`, the offset and `-`, and its digits parse back to the offset. |
| RunErrors.ContentRangeOfRfcForm | Library/src/com/yolanda/nohttp/download/DownloadConnection.java:157-160 | `bytes <first>-<last>/<complete>` yields the complete length. |
| RunErrors.ContentRangeUnknownLength | Library/src/com/yolanda/nohttp/download/DownloadConnection.java:159-165 | `bytes <first>-<last>/*` does not parse. |
| RunErrors.ContentRangeWithoutSlash | Library/src/com/yolanda/nohttp/download/DownloadConnection.java:160 | Without a `/` the whole value is parsed. |
| RunErrors.StatusMessageRoundTrip | Library/src/com/yolanda/nohttp/download/DownloadConnection.java:171 | The status error's message is the fixed text followed by the status code, which parses back. |
| RunFiles.FinalFileShortCircuit | Library/src/com/yolanda/nohttp/download/DownloadConnection.java:107-111 | A range request whose final file exists gives exactly `onProgress(100)` and `onFinish(path)`. No connection is made and both files stay as they were. |
| RunFiles.StaleFinalFileIgnored | Library/src/com/yolanda/nohttp/download/DownloadConnection.java:107-114 | For a non-range request, an existing final file changes nothing: the call goes as if there were none. |
| RunFiles.NonRangeLeavesNoTemp | Library/src/com/yolanda/nohttp/download/DownloadConnection.java:235-236 | For a non-range request no temp file is left, whatever the exit. |
| RunFiles.TransferFinished | Library/src/com/yolanda/nohttp/download/DownloadConnection.java:216-220 | `onFinish` under a sticky flag means every chunk was written. The whole file has been renamed, or is still the temp file if the rename failed. |
| RunFiles.TransferCanceled | Library/src/com/yolanda/nohttp/download/DownloadConnection.java:199-203 | A last `onCancel` means the loop stopped at the first poll that saw the flag. The temp file holds the chunks before that poll. |
| RunFiles.FinishedDownloadContents | Library/src/com/yolanda/nohttp/download/DownloadConnection.java:189-220 | Under a sticky flag, `onFinish` (apart from the short-circuit) leaves at the final path the resumed bytes followed by the whole body, and no temp file. If the rename fails, `onFinish` is still heard: a range request keeps the complete temp file, and any other request keeps no file. |
| RunFiles.CanceledKeepsPartial | Library/src/com/yolanda/nohttp/download/DownloadConnection.java:199-236 | A last `onCancel` means the loop stopped at chunk `n`, the first poll that saw the flag, without writing it. A range request keeps the temp file with the chunks before `n` appended, any other request keeps no file, and no final file exists. |
| RunFiles.TransferKeepsPrefix | Library/src/com/yolanda/nohttp/download/DownloadConnection.java:189-220 | After the transfer, the file holding the download starts with the bytes the temp file held. |
| RunFiles.RangeKeepsResumedBytes | Library/src/com/yolanda/nohttp/download/DownloadConnection.java:116-236 | A range request past the reconciliation never loses its resumed bytes: the temp file or the final file starts with them on every exit. |
| RunProgress.RunProgressValues | Library/src/com/yolanda/nohttp/download/DownloadConnection.java:107-213 | The percentages of a call are 100 alone for the short-circuit, those of the copy loop when it runs, and none otherwise. |
| RunProgress.RunProgressThrottled | Library/src/com/yolanda/nohttp/download/DownloadConnection.java:196-213 | Whatever happens, each reported percentage is divisible by 2 or 3 and differs from the one before, the first from 0. |
| RunProgress.ZeroTotalRunReportsNothing | Library/src/com/yolanda/nohttp/download/DownloadConnection.java:99-220 | When the total length resolves to 0, the only percentage a call reports is the 100 of the final-file short-circuit. |
| RunProgress.MissingContentRangeReportsNothing | Library/src/com/yolanda/nohttp/download/DownloadConnection.java:151-159 | A 206 answer to a range request with an absent or empty `Content-Range` resolves the total to 0 without error, and the call reports no percentage unless it short-circuits. |
| RunProgress.RunProgressRises | Library/src/com/yolanda/nohttp/download/DownloadConnection.java:196-213 | With a known positive total that the resumed bytes and the body do not exceed, the percentages rise strictly and never pass 100. |
| RunProgress.HundredPasses | Library/src/com/yolanda/nohttp/download/DownloadConnection.java:209 | 100 passes the throttle against any other value. |
| RunProgress.FullCountIsHundred | Library/src/com/yolanda/nohttp/download/DownloadConnection.java:208-211 | Reaching the total sets `oldProgress` to 100. |
| RunProgress.CopyEndsAtHundred | Library/src/com/yolanda/nohttp/download/DownloadConnection.java:199-213 | A loop that writes every remaining chunk and reaches the total ends with `oldProgress` at 100. |
| RunProgress.FinishReportsHundred | Library/src/com/yolanda/nohttp/download/DownloadConnection.java:189-220 | Under a sticky flag, a finished non-empty body that makes up the total exactly reports 100 percent last. |
| RunProgress.ProgressOfUnknownLength | Library/src/com/yolanda/nohttp/download/DownloadConnection.java:207-209 | With a total of -1, one byte gives the percentage -100, and it passes the throttle. |
| RunProgress.UnknownLengthLoop | Library/src/com/yolanda/nohttp/download/DownloadConnection.java:199-213 | In that call the loop writes the byte and reports -100 once. |
| RunProgress.UnknownLengthGivesNegativeProgress | Library/src/com/yolanda/nohttp/download/DownloadConnection.java:168-219 | A 200 answer without a content length makes the listener hear `onProgress(-100)` between `onStart` and `onFinish`. |
| RunProgress.LateCancelLeavesNoTerminal | Library/src/com/yolanda/nohttp/download/DownloadConnection.java:199-220 | If the cancel is first seen by the poll after the loop, the listener hears only `onStart`. |
| RunProgress.UnstickyCancelThenFinish | Library/src/com/yolanda/nohttp/download/DownloadConnection.java:200-219 | If the flag is set for the loop's poll and clear for the next one, the listener hears `onCancel` and then `onFinish`. |

## Where the code departs from the documented behaviour

`DownloadListener` (Library/src/com/yolanda/nohttp/download/DownloadListener.java) documents each callback separately and promises nothing about their order or number. The evident design is one `onStart`, then exactly one of `onFinish`, `onCancel` or `onDownloadError`, then no further callbacks. The model follows the code, and the code departs from that design in the following ways:

- The cancel flag is polled twice, at line 200 and again at line 217.
  - A cancel first seen at line 217 ends the call with no terminal call at all (`RunProgress.LateCancelLeavesNoTerminal`).
  - A flag that clears between the two polls gives `onCancel` followed by `onFinish` (`RunProgress.UnstickyCancelThenFinish`).
  - `RunProperties.RunTrace` proves "exactly one, the last" for a sticky flag, with the late cancel as the only exception.
- The result of `renameTo` is ignored, so `onFinish` is reported even when the rename fails. A non-range request then deletes the temp file in `finally`, and no file remains (`RunFiles.FinishedDownloadContents`).
- A range request always sends `Range: bytes=<offset>-`, even when the offset is 0 (`RunErrors.RangeHeaderSent`).
- On a 206 answer to a range request, an absent or empty `Content-Range` is not an error: the total stays 0 and no percentage is reported (`RunProgress.MissingContentRangeReportsNothing`). Only a non-empty value that does not parse gives `ERROR_SERVER_EXCEPTION` (`RunErrors.TotalLengthErrors`). A value without a `/` is parsed whole (`RunErrors.ContentRangeWithoutSlash`).
- A range request that resumes from existing bytes but is answered with 200 rather than 206 takes the content length as the total and still writes the whole body after the resumed bytes (lines 168-169 and 191-205), so a finished download is the old prefix followed by the complete file (`RunFiles.FinishedDownloadContents`).
- Only a total of 0 turns the percentages off (`RunProgress.ZeroTotalRunReportsNothing`, `DownloadProperties.ZeroTotalReportsNothing`). A 200 answer without a content length (-1) gives negative percentages (`RunProgress.UnknownLengthGivesNegativeProgress`).

## Left out

- The singleton `getInstance` (lines 69-73) and `getUserAgent` (247-250) are left out: they are global state and a library call.
- The `null` listener check (84-85) is left out: the listener is the event trace, and a missing listener throws before anything else happens.
- Directory creation (101-103) is left out: the model takes the directory as existing.
- Logging and the header dump (143-149) are left out: they have no observable effect.
- GZIP decoding (183-185) is left out: the body is given as already decoded chunks.
- Closing the streams and the connection (216, 237-243) is left out, and so are exceptions thrown by `randomAccessFile.close()`. With no exception injected at `close`, they have no effect on the trace or the files.
- The collaborators `NetUtil.isNetworkAvailable`, `URLUtil.isValidUrl`, `HttpURLConnection`, `FileUtil.getDirSize`, `File.renameTo` and `getExcetionMessage` are inputs of `Env`, not modelled code.
- Another thread setting the cancel flag becomes a sequence of poll results. Past its end the flag keeps its last value. Threads and timing are not modelled.
- `Files.LocalFile.Delete`: `File.delete()` is taken to succeed, although the source ignores its boolean result at lines 113, 123 and 236. A failed delete at line 123 would leave the old bytes: `createNewFile` then returns false, the loop writes from position 0, and a stale tail can remain past the new body. `RunFiles.NonRangeLeavesNoTemp`, `RunFiles.StaleFinalFileIgnored` and `RunFiles.FinishedDownloadContents` hold only because every delete succeeds.
- The listener's callbacks are taken not to throw. A throwing `onProgress`, `onStart` or `onFinish` would be caught at line 230 and reported as `ERROR_OTHER` after it. The boolean results of `setReadable` and `setWritable` (lines 125-126 and 130-131) are taken as true.
- A call throws at most one exception, at one step. A read that throws is the read of a chunk index; the end-of-stream read is the index one past the last chunk.
- `DownloadModel.CopyFrom`: `count` is not wrapped at 64 bits, and chunks are not limited to the buffer's 1024 bytes. Both are beyond any real body.
- `DownloadModel.Env`: the content length is any integer, not limited to the `int` that `getContentLength` returns.
- `RunFiles.FinishedDownloadContents`: stated only for a sticky cancel flag. With a flag that clears again, the loop can stop on `onCancel` and the call still reports `onFinish` with only part of the body.
- `RunProgress.FinishReportsHundred`: stated only for a sticky flag and a body that makes up the total exactly.
- `RunProgress.RunProgressRises`: stated only under the bounds of `RunProgress.Bounded`. These are a positive total, no overflow of `count * 100`, and no more bytes than the total. Outside them the values can fall or be negative.
- `RunProperties.RunTrace`: "exactly one terminal call" is stated for a sticky flag only, because it fails otherwise, as shown above.
- Digits outside ASCII, which `Long.parseLong` also accepts, are not modelled.
