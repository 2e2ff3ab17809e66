# Email sink writer, modelled in Dafny

The email sink of SeaTunnel's connectors collects the rows of a batch as text in
a `StringBuffer` that lives as long as the writer. `write` turns one row into text
and appends it. `close` writes the whole buffer to the file `emailsink.csv` and
then sends one e-mail with that file attached.

The model has two modules:

- `RowText` (`row_text.dfy`) holds the pure specification of the buffer edit.
  `WriteSpec(buffer, fields)` is what `write` does: it appends `field + ","`
  for every field, deletes the character at index `|fields| - 1` of the
  **whole** buffer, then appends `"\n"`. It is `OutOfBounds` when that delete
  throws. `IntendedLine(fields)` is the comma-joined line with no trailing
  delimiter that the code evidently means to write. The lemmas state the
  properties of `write` as written, relate it to the intended line, and prove
  the round trip and line-count properties of the intended encoding.
- `EmailSink` (`email_sink_writer.dfy`) holds the class `EmailSinkWriter` with
  the same fields as the Java class: `rowType`, `config` and `buffer` (a
  `string` the methods reassign).
  - `Write` runs the loop, the delete and the append in place. It is proved to
    leave exactly `WriteSpec(old(buffer), fields).buffer`.
  - `CreateFile` writes the buffer into a file system given as a map from name
    to contents.
  - `Close` returns the ordered trace of effects it attempts:
    `WriteFile("emailsink.csv", buffer)`, then `Send(relay, message)`.

These parts of the outside world are parameters:
- The file system is a `map<string, string>` passed in and handed back.
- Whether the file can be written is the flag `writable`.
- Whether building and sending the message succeeds is the flag `relayAccepts`.

A failing step ends the trace and is reported as the exception the Java code
throws.

The code does not do what its layout suggests, and the model follows the code.
The trailing comma of a row normally survives. The deleted character is at
index `n - 1` from the start of the buffer, so it is often inside an earlier
line, and it can be an earlier line break. A row with no fields throws
`StringIndexOutOfBoundsException` from `deleteCharAt(-1)`. A batch is therefore
not "one comma-joined line per row". That holds only for the corrected
`WriteIntended`; see "## Findings".

`Close` and `CreateFile` have no `modifies` clause, so the frame alone shows
that they leave `buffer` and `config` as they were. `Write` and `WriteIntended`
may change only `buffer`, and they say that `config` is unchanged.

## Model

| member | source | states |
|---|---|---|
| `EmailSink.EmailSinkWriter.constructor` | seatunnel-connectors-v2/connector-email/src/main/java/org/apache/seatunnel/connectors/seatunnel/email/sink/EmailSinkWriter.java:59-63 | the writer keeps the row type and configuration it is given and starts with an empty buffer |
| `EmailSink.EmailSinkWriter.Write` | seatunnel-connectors-v2/connector-email/src/main/java/org/apache/seatunnel/connectors/seatunnel/email/sink/EmailSinkWriter.java:66-75 | the loop, delete and append leave exactly the buffer `WriteSpec` describes; the method throws `StringIndexOutOfBounds(k)` exactly when the delete index is out of range, keeping the appended text; `config` is unchanged |
| `RowText.DeleteAt` | seatunnel-connectors-v2/connector-email/src/main/java/org/apache/seatunnel/connectors/seatunnel/email/sink/EmailSinkWriter.java:72 | `deleteCharAt(k)` makes the text one character shorter: characters before `k` stay in place and those after it move one to the left |
| `RowText.CellsLength` | seatunnel-connectors-v2/connector-email/src/main/java/org/apache/seatunnel/connectors/seatunnel/email/sink/EmailSinkWriter.java:69-71 | the append loop adds the total length of the fields plus one comma per field |
| `RowText.CellsSnoc` | seatunnel-connectors-v2/connector-email/src/main/java/org/apache/seatunnel/connectors/seatunnel/email/sink/EmailSinkWriter.java:69-71 | one more loop iteration appends that field and one comma at the end |
| `RowText.CellsJoin` | seatunnel-connectors-v2/connector-email/src/main/java/org/apache/seatunnel/connectors/seatunnel/email/sink/EmailSinkWriter.java:69-71 | for a non-empty row, the loop's text is the comma-joined line followed by one trailing comma |
| `RowText.WriteFailsIffEmpty` | seatunnel-connectors-v2/connector-email/src/main/java/org/apache/seatunnel/connectors/seatunnel/email/sink/EmailSinkWriter.java:67-72 | `write` throws if and only if the row has no fields; the index is then -1 and the buffer is unchanged; for n >= 1 fields, index n - 1 is always in range |
| `RowText.WriteLength` | seatunnel-connectors-v2/connector-email/src/main/java/org/apache/seatunnel/connectors/seatunnel/email/sink/EmailSinkWriter.java:69-73 | length law: for a row with a field, the new length is the old length plus the sum of the field lengths plus n |
| `RowText.WriteChars` | seatunnel-connectors-v2/connector-email/src/main/java/org/apache/seatunnel/connectors/seatunnel/email/sink/EmailSinkWriter.java:69-73 | exact effect: with `s` the old buffer plus the loop's text, every character of `s` except index n - 1 is kept in order, and a newline follows |
| `RowText.WriteEndsWithNewline` | seatunnel-connectors-v2/connector-email/src/main/java/org/apache/seatunnel/connectors/seatunnel/email/sink/EmailSinkWriter.java:73 | after writing a row with a field, the buffer is non-empty and ends with a newline |
| `RowText.WriteNeverClears` | seatunnel-connectors-v2/connector-email/src/main/java/org/apache/seatunnel/connectors/seatunnel/email/sink/EmailSinkWriter.java:66-75 | `write` never shortens the buffer, and the earlier text before index n - 1 is kept |
| `RowText.WriteWithinRow` | seatunnel-connectors-v2/connector-email/src/main/java/org/apache/seatunnel/connectors/seatunnel/email/sink/EmailSinkWriter.java:72 | a row with more fields than the buffer has characters deletes a character of its own text; the earlier text survives whole |
| `RowText.WriteIntoEarlier` | seatunnel-connectors-v2/connector-email/src/main/java/org/apache/seatunnel/connectors/seatunnel/email/sink/EmailSinkWriter.java:72 | otherwise the character at index n - 1 of the earlier text is deleted, and the row is appended whole with its trailing comma |
| `RowText.AgreesWithIntendedIff` | seatunnel-connectors-v2/connector-email/src/main/java/org/apache/seatunnel/connectors/seatunnel/email/sink/EmailSinkWriter.java:69-73 | `write` produces the intended comma-joined line if and only if every character from index n - 1 to the end of the appended text is a comma |
| `RowText.DeleteAtSame` | seatunnel-connectors-v2/connector-email/src/main/java/org/apache/seatunnel/connectors/seatunnel/email/sink/EmailSinkWriter.java:72 | deleting index i and deleting index j give the same text if and only if each character from i to j equals its right neighbour |
| `RowText.ExampleRowDiverges` | seatunnel-connectors-v2/connector-email/src/main/java/org/apache/seatunnel/connectors/seatunnel/email/sink/EmailSinkWriter.java:69-73 | the row `["a","1","true"]` in an empty buffer leaves `"a,,true,\n"`; the intended line is `"a,1,true\n"` |
| `RowText.ExampleSplitBroken` | seatunnel-connectors-v2/connector-email/src/main/java/org/apache/seatunnel/connectors/seatunnel/email/sink/EmailSinkWriter.java:69-73 | that line splits on commas into four pieces `a`, ``, `true`, ``, not back into the row |
| `RowText.ExampleTwoRows` | seatunnel-connectors-v2/connector-email/src/main/java/org/apache/seatunnel/connectors/seatunnel/email/sink/EmailSinkWriter.java:69-73 | the second row `["b","2","false"]` deletes a comma of the first line: the buffer becomes `"a,true,\nb,2,false,\n"` |
| `RowText.ExampleFirstOfMerge` | seatunnel-connectors-v2/connector-email/src/main/java/org/apache/seatunnel/connectors/seatunnel/email/sink/EmailSinkWriter.java:72 | a one-field row deletes the first character of the buffer: `["x"]` in an empty buffer leaves `",\n"` |
| `RowText.ExampleLinesMerge` | seatunnel-connectors-v2/connector-email/src/main/java/org/apache/seatunnel/connectors/seatunnel/email/sink/EmailSinkWriter.java:72 | the row `["p","q"]` then deletes that line break, so two rows leave one line, `",p,q,\n"` |
| `EmailSink.EmailSinkWriter.WriteIntended` | seatunnel-connectors-v2/connector-email/src/main/java/org/apache/seatunnel/connectors/seatunnel/email/sink/EmailSinkWriter.java:66-75 | corrected `write`, which deletes the row's trailing comma: the buffer grows by exactly the intended line, and a row with no fields gives an empty line; `config` is unchanged |
| `RowText.JoinDelimiters` | seatunnel-connectors-v2/connector-email/src/main/java/org/apache/seatunnel/connectors/seatunnel/email/sink/EmailSinkWriter.java:69-73 | an intended line of n >= 1 comma-free fields holds exactly n - 1 delimiters |
| `RowText.SplitJoin` | seatunnel-connectors-v2/connector-email/src/main/java/org/apache/seatunnel/connectors/seatunnel/email/sink/EmailSinkWriter.java:69-73 | round trip: splitting an intended line on commas gives the fields back when no field contains a comma |
| `RowText.IntendedLineBreaks` | seatunnel-connectors-v2/connector-email/src/main/java/org/apache/seatunnel/connectors/seatunnel/email/sink/EmailSinkWriter.java:73 | an intended line holds exactly one line break, at its end, when no field contains one |
| `RowText.IntendedBatchLines` | seatunnel-connectors-v2/connector-email/src/main/java/org/apache/seatunnel/connectors/seatunnel/email/sink/EmailSinkWriter.java:66-75 | N rows encoded as intended give exactly N line breaks |
| `RowText.IntendedBatchSnoc` | seatunnel-connectors-v2/connector-email/src/main/java/org/apache/seatunnel/connectors/seatunnel/email/sink/EmailSinkWriter.java:66-75 | each intended row extends the batch, in insertion order, by its own line |
| `RowText.ExampleTwoRowsIntended` | seatunnel-connectors-v2/connector-email/src/main/java/org/apache/seatunnel/connectors/seatunnel/email/sink/EmailSinkWriter.java:66-75 | under the intended encoding the two example rows give `"a,1,true\nb,2,false\n"` |
| `EmailSink.EmailSinkWriter.CreateFile` | seatunnel-connectors-v2/connector-email/src/main/java/org/apache/seatunnel/connectors/seatunnel/email/sink/EmailSinkWriter.java:140-157 | on success `emailsink.csv` holds exactly the buffer, overwriting whatever it held, and no other file changes; on failure `CreateFileFail` is thrown |
| `EmailSink.EmailSinkWriter.Close` | seatunnel-connectors-v2/connector-email/src/main/java/org/apache/seatunnel/connectors/seatunnel/email/sink/EmailSinkWriter.java:78-138 | the file write comes first; if it fails, `createFile`'s exception escapes and nothing is sent; otherwise one `Send` follows with the configured addresses, subject, text, host, protocol, auth flag, SSL on, all hosts trusted and the from-address and authorization code as credentials; the attachment is named `emailsink.csv` and holds the buffer; a send failure throws `SendEmailFail`; the call raises nothing exactly when both steps succeed |
| `EmailSink.TwoRowBatch` | seatunnel-connectors-v2/connector-email/src/main/java/org/apache/seatunnel/connectors/seatunnel/email/sink/EmailSinkWriter.java:59-157 | constructing a writer, writing `["a","1","true"]` and `["b","2","false"]` and closing it writes and attaches `"a,true,\nb,2,false,\n"` |

## Left out

- Null fields: `field.toString()` on a null field throws `NullPointerException` at line 70. That would leave the earlier fields of the row in the buffer. The model's fields are already-rendered strings and are never null.
- Java's `toString` for arbitrary field objects: fields are modelled by their text.
- Characters: Java's `StringBuffer` holds UTF-16 code units, the model holds Dafny `char`s. The two agree for text without surrogate pairs.
- The JavaMail session (lines 80-98 and 132): `Properties`, `MailSSLSocketFactory`, the `Authenticator` callback, `Session.getDefaultInstance` and its process-wide caching, and `Transport.send`. They appear only as the `Relay` values handed over and the `relayAccepts` outcome.
- MIME structure (lines 100-129): the model keeps only the message's addresses, subject, text, attachment name and attachment contents. The attachment's content type and the multipart layout are left out.
- Real file semantics (`File.exists`, `createNewFile`, `FileWriter`): the file system is a map from name to contents.
- EmailSink.EmailSinkWriter.CreateFile: on failure the map is handed back unchanged. A real failure after `createNewFile`, or after `FileWriter` has truncated the file, can leave `emailsink.csv` empty or partly written; the model does not capture that.
- EmailSink.EmailSinkWriter.Close: building the message and sending it are one step with one outcome. A `Send` effect is recorded even when the failure came from building the message, for example from a malformed address in `InternetAddress`, and was not from the relay.
- `EmailSinkConfig` parsing and the `AbstractSinkWriter` lifecycle: the configuration is a datatype of the values its getters return. How often the host calls `write` and `close` is up to the caller.
- Logging (lines 53, 133, 135, 151, 153).

## Findings

| source | as written | input that shows it | evidently intended | confidence | as-written member | corrected member |
|---|---|---|---|---|---|---|
| seatunnel-connectors-v2/connector-email/src/main/java/org/apache/seatunnel/connectors/seatunnel/email/sink/EmailSinkWriter.java:72 | `deleteCharAt(fields.length - 1)` counts from the start of the whole buffer, so the trailing comma stays and another character is deleted | `["a","1","true"]` in an empty buffer gives `"a,,true,\n"`; then `["b","2","false"]` gives `"a,true,\nb,2,false,\n"`; `["x"]` then `["p","q"]` gives the single line `",p,q,\n"` | delete the trailing comma of the row just appended, giving `"a,1,true\n"` and one line per row | high; not executed | `EmailSink.EmailSinkWriter.Write`, `RowText.ExampleRowDiverges`, `RowText.ExampleTwoRows`, `RowText.ExampleLinesMerge` | `EmailSink.EmailSinkWriter.WriteIntended`, `RowText.SplitJoin`, `RowText.IntendedBatchLines` |
| seatunnel-connectors-v2/connector-email/src/main/java/org/apache/seatunnel/connectors/seatunnel/email/sink/EmailSinkWriter.java:72 | a row with no fields calls `deleteCharAt(-1)`, which throws `StringIndexOutOfBoundsException` | a row with zero fields | an empty line (`"\n"`) | medium; not executed | `RowText.WriteFailsIffEmpty` | `EmailSink.EmailSinkWriter.WriteIntended` |

`Close` and `CreateFile` work on whatever the buffer holds, so they are the same
for both versions of `write`. `Write` models the code as written, and
`TwoRowBatch` uses it. `WriteIntended` is the corrected version, and the lemmas
about `IntendedLine` and `IntendedBatch` describe what it writes.
