/** The email sink's writer: rows are turned into text in a buffer that lives
    as long as the writer; closing the writer writes the buffer to a fixed file
    and sends that file as the attachment of one e-mail.

    The file system is a map from file name to contents, passed in and handed
    back. The outcome of the two pieces of I/O (whether the file can be
    written, whether the mail relay accepts the message) is given as a
    parameter. `Close` reports the effects it attempts, in order, as a trace. */
module EmailSink {
  import opened RowText

  datatype Option<T> = None | Some(value: T)

  /** The one file the writer produces and attaches. */
  const FileName: string := "emailsink.csv"

  /** The parsed connector settings the writer reads. */
  datatype EmailSinkConfig = EmailSinkConfig(
    emailHost: string,
    emailTransportProtocol: string,
    emailSmtpAuth: string,
    emailFromAddress: string,
    emailAuthorizationCode: string,
    emailToAddress: string,
    emailMessageHeadline: string,
    emailMessageContent: string)

  /** The schema of the rows; the writer keeps it and never reads it. */
  datatype RowType = RowType(fieldNames: seq<string>)

  /** The exceptions the writer raises. */
  datatype Failure =
    | StringIndexOutOfBounds(index: int)  // from deleteCharAt in write
    | CreateFileFail                      // "Create File Fail." from createFile
    | SendEmailFail                       // "send email Fail." from close

  /** The session settings `close` hands to the mail library. */
  datatype Relay = Relay(
    host: string,
    transportProtocol: string,
    smtpAuth: string,
    sslEnable: bool,
    trustAllHosts: bool,
    user: string,
    password: string)

  /** The message `close` builds: a text part and one attached file. */
  datatype Message = Message(
    from: string,
    to: string,
    subject: string,
    text: string,
    attachmentName: string,
    attachment: string)

  /** An effect `close` attempts on the outside world. */
  datatype Effect =
    | WriteFile(name: string, contents: string)
    | Send(relay: Relay, message: Message)

  class EmailSinkWriter {
    const rowType: RowType
    var config: EmailSinkConfig
    var buffer: string

    constructor (rowType: RowType, config: EmailSinkConfig)
      ensures this.rowType == rowType && this.config == config
      ensures buffer == ""
    {
      this.rowType := rowType;
      this.config := config;
      buffer := "";
    }

    /** `write` as the code does it: append each field and a comma, delete the
        character at index |fields| - 1 of the whole buffer, append a newline.
        For a row with no fields the delete throws and the buffer keeps what
        the loop appended (nothing). */
    method Write(fields: seq<string>) returns (thrown: Option<Failure>)
      modifies this`buffer
      ensures buffer == WriteSpec(old(buffer), fields).buffer
      ensures WriteSpec(old(buffer), fields).Wrote? ==> thrown == None
      ensures WriteSpec(old(buffer), fields).OutOfBounds? ==>
                thrown == Some(StringIndexOutOfBounds(WriteSpec(old(buffer), fields).index))
      ensures config == old(config)
    {
      for i := 0 to |fields|
        invariant buffer == old(buffer) + Cells(fields[..i])
      {
        CellsSnoc(fields[..i], fields[i]);
        assert fields[..i + 1] == fields[..i] + [fields[i]];
        buffer := buffer + (fields[i] + ",");
      }
      assert fields[..|fields|] == fields;
      var k := |fields| - 1;
      if k < 0 || k >= |buffer| {
        return Some(StringIndexOutOfBounds(k));
      }
      buffer := DeleteAt(buffer, k);
      buffer := buffer + "\n";
      thrown := None;
    }

    /** `write` with the delete aimed at the trailing comma of the row just
        appended, which is what the code evidently intends; a row with no
        fields gives an empty line. */
    method WriteIntended(fields: seq<string>)
      modifies this`buffer
      ensures buffer == old(buffer) + IntendedLine(fields)
      ensures config == old(config)
    {
      for i := 0 to |fields|
        invariant buffer == old(buffer) + Cells(fields[..i])
      {
        CellsSnoc(fields[..i], fields[i]);
        assert fields[..i + 1] == fields[..i] + [fields[i]];
        buffer := buffer + (fields[i] + ",");
      }
      assert fields[..|fields|] == fields;
      if |fields| > 0 {
        CellsJoin(fields);
        buffer := DeleteAt(buffer, |buffer| - 1);
        assert buffer == old(buffer) + Join(fields);
      }
      buffer := buffer + "\n";
    }

    /** `createFile`: the file named FileName gets exactly the buffer's text,
        whatever it held before; no other file changes. If the file cannot be
        written the call throws and the map is handed back as it was. */
    method CreateFile(files: map<string, string>, writable: bool)
      returns (written: map<string, string>, thrown: Option<Failure>)
      ensures writable ==> thrown == None
      ensures writable ==> FileName in written && written[FileName] == buffer
      ensures writable ==> written.Keys == files.Keys + {FileName}
      ensures writable ==> forall name :: name in files && name != FileName ==> written[name] == files[name]
      ensures !writable ==> thrown == Some(CreateFileFail) && written == files
    {
      var data := buffer;
      if !writable {
        return files, Some(CreateFileFail);
      }
      written := files[FileName := data];
      thrown := None;
    }

    /** `close`: write the file first, then build and send the message with that
        file attached. A failing file write is rethrown before any message is
        built, so nothing is sent; a failure anywhere in building or sending the
        message is rethrown as SendEmailFail. */
    method Close(files: map<string, string>, writable: bool, relayAccepts: bool)
      returns (written: map<string, string>, trace: seq<Effect>, thrown: Option<Failure>)
      ensures |trace| >= 1 && trace[0] == WriteFile(FileName, buffer)
      ensures thrown == None <==> writable && relayAccepts
      ensures !writable ==> trace == [WriteFile(FileName, buffer)] && written == files
      ensures !writable ==> thrown == Some(CreateFileFail)
      ensures writable && !relayAccepts ==> thrown == Some(SendEmailFail)
      ensures writable ==> FileName in written && written[FileName] == buffer
      ensures writable ==> written.Keys == files.Keys + {FileName}
      ensures writable ==> forall name :: name in files && name != FileName ==> written[name] == files[name]
      ensures writable ==> |trace| == 2 && trace[1].Send?
      ensures forall i :: 0 <= i < |trace| && trace[i].Send? ==>
                i > 0 && trace[i - 1] == WriteFile(FileName, buffer)
                && trace[i].message.attachmentName == FileName
                && trace[i].message.attachment == buffer
                && trace[i].message.from == config.emailFromAddress
                && trace[i].message.to == config.emailToAddress
                && trace[i].message.subject == config.emailMessageHeadline
                && trace[i].message.text == config.emailMessageContent
                && trace[i].relay.host == config.emailHost
                && trace[i].relay.transportProtocol == config.emailTransportProtocol
                && trace[i].relay.smtpAuth == config.emailSmtpAuth
                && trace[i].relay.sslEnable && trace[i].relay.trustAllHosts
                && trace[i].relay.user == config.emailFromAddress
                && trace[i].relay.password == config.emailAuthorizationCode
    {
      var createFailure;
      written, createFailure := CreateFile(files, writable);
      trace := [WriteFile(FileName, buffer)];
      if createFailure.Some? {
        return written, trace, createFailure;
      }
      var relay := Relay(config.emailHost, config.emailTransportProtocol, config.emailSmtpAuth,
                         true, true, config.emailFromAddress, config.emailAuthorizationCode);
      var filename := "emailsink.csv";
      // the attachment is read back from the file system under the literal name
      var message := Message(config.emailFromAddress, config.emailToAddress,
                             config.emailMessageHeadline, config.emailMessageContent,
                             filename, written[filename]);
      trace := trace + [Send(relay, message)];
      thrown := if relayAccepts then None else Some(SendEmailFail);
    }
  }

  /** A batch of two rows, ["a", "1", "true"] and ["b", "2", "false"], through
      construct, write, write and close, with both pieces of I/O succeeding: the file and the attachment hold
      "a,true,\nb,2,false,\n", not "a,1,true\nb,2,false\n". */
  method TwoRowBatch(config: EmailSinkConfig) returns (trace: seq<Effect>, thrown: Option<Failure>)
    ensures thrown == None
    ensures |trace| == 2
    ensures trace[0] == WriteFile(FileName, "a,true,\nb,2,false,\n")
    ensures trace[1].Send? && trace[1].message.attachment == "a,true,\nb,2,false,\n"
    ensures trace[1].message.to == config.emailToAddress
  {
    var writer := new EmailSinkWriter(RowType(["name", "id", "flag"]), config);
    ExampleRowDiverges();
    ExampleTwoRows();
    var t1 := writer.Write(["a", "1", "true"]);
    var t2 := writer.Write(["b", "2", "false"]);
    var files;
    files, trace, thrown := writer.Close(map[], true, true);
  }
}
