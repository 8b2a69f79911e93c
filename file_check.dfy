/** Pre-flight validation of the input and output paths
    (`check_files`, video-tools/video.py:78-110). The filesystem queries are
    given as attributes of each path. */
module FileCheck {

  /** What `Path.is_file()` and `os.access(path, os.R_OK)` report for an input. */
  datatype InputFile = InputFile(isFile: bool, readable: bool)

  /** What `exists()` (present), `is_file()` and `os.access(parent, os.W_OK)` report for
      the output path. */
  datatype OutputFile = OutputFile(present: bool, isFile: bool, parentWritable: bool)

  /** The diagnostic printed before `check_files` returns False. */
  datatype Rejection =
    | InputMissing(index: nat)      // "Input file does not exist"
    | InputUnreadable(index: nat)   // "Input file is not readable"
    | OutputExists                  // "Output file already exists"
    | OutputNotAFile                // "Output file exists but is not a file"
    | OutputDirNotWritable          // "Output file is not in writable directory"

  /** True, or False with the reason that was printed. */
  datatype Verdict = Accepted | Rejected(reason: Rejection)

  predicate InputOk(f: InputFile)
  {
    f.isFile && f.readable
  }

  /** Every input before position `i` passed both input checks. */
  predicate InputsOkBefore(inputs: seq<InputFile>, i: nat)
    requires i <= |inputs|
  {
    forall j :: 0 <= j < i ==> InputOk(inputs[j])
  }

  /** The output checks pass: a present output is allowed only with overwrite
      and only if it is a regular file; its directory must be writable. */
  predicate OutputOk(output: OutputFile, overwrite: bool)
  {
    (output.present ==> overwrite && output.isFile) && output.parentWritable
  }

  method CheckFiles(inputs: seq<InputFile>, output: OutputFile, overwrite: bool) returns (v: Verdict)
    ensures v == Accepted <==> InputsOkBefore(inputs, |inputs|) && OutputOk(output, overwrite)
    ensures v.Rejected? && (v.reason.InputMissing? || v.reason.InputUnreadable?) ==> v.reason.index < |inputs|
    ensures forall i :: 0 <= i < |inputs| ==>
      (v == Rejected(InputMissing(i)) <==> InputsOkBefore(inputs, i) && !inputs[i].isFile)
    ensures forall i :: 0 <= i < |inputs| ==>
      (v == Rejected(InputUnreadable(i)) <==> InputsOkBefore(inputs, i) && inputs[i].isFile && !inputs[i].readable)
    ensures v == Rejected(OutputExists)
        <==> InputsOkBefore(inputs, |inputs|) && output.present && !overwrite
    ensures v == Rejected(OutputNotAFile)
        <==> InputsOkBefore(inputs, |inputs|) && output.present && overwrite && !output.isFile
    ensures v == Rejected(OutputDirNotWritable)
        <==> InputsOkBefore(inputs, |inputs|) && (output.present ==> overwrite && output.isFile)
             && !output.parentWritable
  {
    for i := 0 to |inputs|
      invariant InputsOkBefore(inputs, i)
    {
      if !inputs[i].isFile {
        return Rejected(InputMissing(i));
      }
      if !inputs[i].readable {
        return Rejected(InputUnreadable(i));
      }
    }
    if output.present {
      if !overwrite {
        return Rejected(OutputExists);
      } else if !output.isFile {
        return Rejected(OutputNotAFile);
      }
    }
    if !output.parentWritable {
      return Rejected(OutputDirNotWritable);
    }
    return Accepted;
  }
}
