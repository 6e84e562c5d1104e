/** The text assembly of `extract_text_from_document` (main.py:76-82) and
    the result shaping of `process_document` (main.py:159-193). The OCR
    service's final answer is passed in; storage calls are not modelled. */
module Document {
  import opened Wrappers
  import opened Chars
  import opened Calendar
  import opened Age
  import opened DobExtraction
  import opened NameSearch

  /** One entry of the OCR response's `Blocks` list: `BlockType` and `Text`. */
  datatype Block = Block(blockType: string, text: string)

  const LineBlockType := "LINE"

  predicate IsLine(b: Block)
  {
    b.blockType == LineBlockType
  }

  /** The texts of the `LINE` blocks, in their original order. */
  function LineTexts(blocks: seq<Block>): (lines: seq<string>)
    ensures |lines| <= |blocks|
    ensures forall x :: x in lines <==> exists k :: 0 <= k < |blocks| && IsLine(blocks[k]) && blocks[k].text == x
  {
    if blocks == [] then []
    else
      var rest := LineTexts(blocks[1..]);
      assert forall k :: 1 <= k < |blocks| ==> blocks[k] == blocks[1..][k - 1];
      assert forall k :: 0 <= k < |blocks| - 1 ==> blocks[1..][k] == blocks[k + 1];
      if IsLine(blocks[0]) then [blocks[0].text] + rest else rest
  }

  /** Filtering distributes over concatenation, so the order of the kept
      blocks is the order of the input. */
  lemma {:induction false} LineTextsAppend(a: seq<Block>, b: seq<Block>)
    ensures LineTexts(a + b) == LineTexts(a) + LineTexts(b)
    decreases |a|
  {
    if a != [] {
      assert (a + b)[1..] == a[1..] + b;
      assert (a + b)[0] == a[0];
      LineTextsAppend(a[1..], b);
    } else {
      assert a + b == b;
    }
  }

  /** main.py:77-80: each `LINE` block's text followed by a newline, in
      order; other block types contribute nothing. The result is the line
      texts joined by newlines, with one final newline. */
  function AssembleText(blocks: seq<Block>): (text: string)
    ensures text == Join(LineTexts(blocks) + [""], '\n')
  {
    if blocks == [] then ""
    else
      var rest := AssembleText(blocks[1..]);
      if IsLine(blocks[0]) then
        var tail := LineTexts(blocks[1..]) + [""];
        assert ([blocks[0].text] + tail)[1..] == tail;
        assert LineTexts(blocks) + [""] == [blocks[0].text] + tail;
        blocks[0].text + "\n" + rest
      else rest
  }

  /** Assembly distributes over concatenation of block lists. */
  lemma {:induction false} AssembleTextAppend(a: seq<Block>, b: seq<Block>)
    ensures AssembleText(a + b) == AssembleText(a) + AssembleText(b)
    decreases |a|
  {
    if a != [] {
      assert (a + b)[1..] == a[1..] + b;
      assert (a + b)[0] == a[0];
      AssembleTextAppend(a[1..], b);
    } else {
      assert a + b == b;
    }
  }

  /** When no line text holds a newline, splitting the assembled text on
      newlines gives back the `LINE` texts, plus the empty string after the
      final newline: line `i` of the name search is the `i`-th `LINE` block. */
  lemma AssembledLines(blocks: seq<Block>)
    requires forall b :: b in blocks && IsLine(b) ==> '\n' !in b.text
    ensures Lines(AssembleText(blocks)) == LineTexts(blocks) + [""]
  {
    var parts := LineTexts(blocks) + [""];
    forall k | 0 <= k < |parts|
      ensures '\n' !in parts[k]
    {
      if k < |parts| - 1 {
        assert parts[k] in LineTexts(blocks);
      }
    }
    SplitJoin(parts, '\n');
  }

  /** The state the polling loop of main.py:66-71 stops in. */
  datatype OcrJob = JobSucceeded(blocks: seq<Block>) | JobFailed

  /** The `age_verification` entry of the response. */
  datatype AgeVerification = Verified(info: AgeInfo) | DateNotFound(error: string)

  /** The `error` text of the `DateNotFound` marker. */
  const DateNotFoundMessage := "Data de nascimento não encontrada no documento"

  /** The success response of `process_document`; its `status` is always
      `"success"`. */
  datatype DocumentResult = DocumentResult(
    text: string,
    foundNames: map<string, seq<nat>>,
    ageVerification: AgeVerification)

  /** Why `process_document` raised: the OCR job failed, or the extracted
      date was rejected by `calculate_age`. */
  datatype DocumentError = TextExtractionFailed | AgeCalculationFailed(dateOfBirth: string, cause: ParseError)

  /** main.py:175-178 and 187-189: the calculator's result for the date
      that was found, the not-found marker otherwise. A found token that is
      no calendar date makes `calculate_age` raise its HTTP 400, which
      `process_document` catches and raises again as a 500, so the whole
      document fails. */
  function VerifyAge(text: string, today: Date): (r: Result<AgeVerification, DocumentError>)
    ensures r == Success(DateNotFound(DateNotFoundMessage)) <==> forall i :: !DateAt(Lower(text), i)
    ensures r.Success? && r.value.Verified? ==>
      var info := r.value.info;
      && IsDateToken(info.dateOfBirth)
      && (exists i :: DateAt(text, i) && text[i..i + 10] == info.dateOfBirth)
      && ValidDate(TokenDate(info.dateOfBirth))
      && info.age == YearsBetween(TokenDate(info.dateOfBirth), today)
      && (info.isUnderage <==> info.age < AdultAge)
    ensures r.Failure? ==>
      && r.error.AgeCalculationFailed?
      && IsDateToken(r.error.dateOfBirth)
      && (exists i :: DateAt(text, i) && text[i..i + 10] == r.error.dateOfBirth)
      && !ValidDate(TokenDate(r.error.dateOfBirth))
    ensures ExtractDateOfBirth(text).Some? ==>
      var dob := ExtractDateOfBirth(text).value;
      && (r.Success? <==> CalculateAge(dob, today).Success?)
      && (r.Success? ==> r.value == Verified(CalculateAge(dob, today).value))
      && (r.Failure? ==> r.error == AgeCalculationFailed(dob, CalculateAge(dob, today).error))
  {
    DateOccursInOriginalText(text);
    match ExtractDateOfBirth(text)
    case None => Success(DateNotFound(DateNotFoundMessage))
    case Some(dob) =>
      ParseToken(dob);
      match CalculateAge(dob, today)
      case Success(info) => Success(Verified(info))
      case Failure(cause) => Failure(AgeCalculationFailed(dob, cause))
  }

  /** The labelled date decides even when it is no calendar date and an
      earlier date is valid: for `01/01/2000 nasc 31/02/2000` the document
      fails on `31/02/2000` (see `Calendar.ParseRejectsNonexistentDay`). */
  lemma LabelledInvalidDateFails(early: string, born: string, today: Date)
    requires IsDateToken(early) && IsDateToken(born)
    requires ParseDate(born).Failure?
    ensures VerifyAge(early + " nasc " + born, today)
         == Failure(AgeCalculationFailed(born, ParseDate(born).error))
  {
    LabelBeatsEarlierDate(early, born);
  }

  /** `process_document` once the OCR job has finished. */
  method ProcessDocument(job: OcrJob, names: seq<string>, today: Date) returns (r: Result<DocumentResult, DocumentError>)
    ensures job.JobFailed? ==> r == Failure(TextExtractionFailed)
    ensures job.JobSucceeded? && VerifyAge(AssembleText(job.blocks), today).Failure? ==>
      r == Failure(VerifyAge(AssembleText(job.blocks), today).error)
    ensures job.JobSucceeded? && VerifyAge(AssembleText(job.blocks), today).Success? ==>
      && r.Success?
      && r.value.text == AssembleText(job.blocks)
      && r.value.ageVerification == VerifyAge(AssembleText(job.blocks), today).value
      && NameIndex(r.value.foundNames, Lines(r.value.text), names)
  {
    match job
    case JobFailed =>
      r := Failure(TextExtractionFailed);
    case JobSucceeded(blocks) =>
      var text := AssembleText(blocks);
      var found := SearchNames(text, names);
      match VerifyAge(text, today)
      case Failure(e) =>
        r := Failure(e);
      case Success(v) =>
        r := Success(DocumentResult(text, found, v));
  }
}
