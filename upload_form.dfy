/**
 * `XLSUploadForm`: the upload form's header validation. Cleaning parses the uploaded
 * workbook and either reports it as incompatible or adds the header check's messages
 * to the errors of the file field.
 */
module UploadForm {
  import opened Wrappers
  import opened Sheet
  import opened Header
  import opened Parser
  import Schema

  const INCOMPATIBLE_FILE := "Incompatible file!"

  /**
   * The messages `clean` adds to the file field for an upload whose first worksheet is
   * `file` (`None`: the upload is not a readable workbook).
   */
  function UploadErrors(file: Option<Worksheet>, allowed: seq<string>): seq<string> {
    if file.None? || ParsedHeader(file.value).Failure? then [INCOMPATIBLE_FILE]
    else Schema.CheckHeader(ParsedHeader(file.value).value.names, allowed)
  }

  /**
   * An upload passes cleaning exactly when it is a workbook whose header parses to the
   * allowed field names (as sets); any parse failure is reported as one generic message.
   */
  lemma UploadErrorsSpec(file: Option<Worksheet>, allowed: seq<string>)
    ensures UploadErrors(file, allowed) == [] <==>
      file.Some? && ParsedHeader(file.value).Success? &&
      (set x | x in ParsedHeader(file.value).value.names) == (set x | x in allowed)
    ensures file.Some? && HeaderDepth(file.value.merged).None? ==> UploadErrors(file, allowed) == [INCOMPATIBLE_FILE]
  {
    if file.Some? && ParsedHeader(file.value).Success? {
      Schema.CheckHeaderPassesIff(ParsedHeader(file.value).value.names, allowed);
    }
  }

  class XLSUploadForm {
    /** The errors recorded against the file field, in the order they were added. */
    var fileErrors: seq<string>
    var worksheet: XLSParser?
    const allowedFields: seq<string>

    /** `modelFields`: the field names of the data model the rows are stored in. */
    constructor (modelFields: seq<string>)
      ensures fileErrors == [] && worksheet == null && allowedFields == Schema.AllowedFields(modelFields)
    {
      fileErrors := [];
      worksheet := null;
      allowedFields := Schema.AllowedFields(modelFields);
    }

    /** `add_header_error`. */
    method AddHeaderError(message: string, errorFields: seq<string>)
      modifies this
      ensures fileErrors == old(fileErrors) + Schema.HeaderError(message, errorFields)
      ensures worksheet == old(worksheet)
    {
      if errorFields != [] {
        fileErrors := fileErrors + Schema.HeaderError(message, errorFields);
      }
    }

    /** `check_header`. */
    method CheckHeader()
      requires worksheet != null
      modifies this
      ensures worksheet == old(worksheet)
      ensures fileErrors == old(fileErrors) + Schema.CheckHeader(worksheet.fieldNames, allowedFields)
    {
      AddHeaderError(Schema.MISSING_MESSAGE, Schema.Without(allowedFields, worksheet.fieldNames));
      AddHeaderError(Schema.NOT_ALLOWED_MESSAGE, Schema.Without(worksheet.fieldNames, allowedFields));
    }

    /** `clean`: parse the upload, then check its header; any failure to parse is one generic error. */
    method Clean(file: Option<Worksheet>)
      modifies this
      ensures fileErrors == old(fileErrors) + UploadErrors(file, allowedFields)
      ensures file.Some? && ParsedHeader(file.value).Success? ==>
        worksheet != null && fresh(worksheet) && worksheet.worksheet == file.value && worksheet.Valid()
      ensures file.None? || ParsedHeader(file.value).Failure? ==> worksheet == old(worksheet)
    {
      if file.None? {
        fileErrors := fileErrors + [INCOMPATIBLE_FILE];
        return;
      }
      var parsed := XLSParser.Open(file.value);
      if parsed.Failure? {
        fileErrors := fileErrors + [INCOMPATIBLE_FILE];
        return;
      }
      worksheet := parsed.value;
      CheckHeader();
    }
  }
}
