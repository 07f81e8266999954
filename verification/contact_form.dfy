/** The contact form's submit handler: every `input` and `textarea` is checked for
    a value that is blank after trimming, and every field of type `email` is
    also checked against the e-mail pattern. The handler never sends anything;
    it shows a success or an error notice and, on success, resets the form. */
module ContactForm {
  import opened Text
  import opened Email

  /** One `input` or `textarea` of the form, in document order. `invalid` is the
      red border the handler sets; `defaultValue` is what `reset()` restores. */
  datatype Field = Field(inputType: string, value: string, defaultValue: string, invalid: bool)

  /** The kind of notice shown after a submission. */
  datatype Notice = SuccessNotice | ErrorNotice

  /** The field is blank once trimmed, or is an e-mail field whose untrimmed
      value fails the pattern. */
  ghost predicate Rejected(f: Field) {
    AllSpace(f.value) || (f.inputType == "email" && !IsEmail(f.value))
  }

  /** `form.reset()`: each control gets its default value back. The inline border
      colour is a style, which a reset does not touch. */
  function Reset(fields: seq<Field>): (r: seq<Field>)
    ensures |r| == |fields|
    ensures forall k :: 0 <= k < |fields| ==> r[k] == fields[k].(value := fields[k].defaultValue)
  {
    if fields == [] then []
    else [fields[0].(value := fields[0].defaultValue)] + Reset(fields[1..])
  }

  /** The checks the handler runs on one field: first the blank test on the
      trimmed value, then, for an e-mail field, the pattern on the raw value,
      which can only turn the mark on. */
  method CheckField(input: Field) returns (invalid: bool)
    ensures invalid == Rejected(input)
  {
    TrimEmptyIffAllSpace(input.value);
    if Trim(input.value) == [] {
      invalid := true;
    } else {
      invalid := false;
    }
    if input.inputType == "email" {
      var matches := TestEmail(input.value);
      if !matches {
        invalid := true;
      }
    }
  }

  /** The submit handler. */
  method Submit(form: seq<Field>) returns (result: seq<Field>, notice: Notice)
    ensures |result| == |form|
    ensures notice == SuccessNotice <==> forall k :: 0 <= k < |form| ==> !Rejected(form[k])
    ensures forall k :: 0 <= k < |form| ==> result[k].invalid == Rejected(form[k])
    ensures forall k :: 0 <= k < |form| ==>
      result[k].inputType == form[k].inputType && result[k].defaultValue == form[k].defaultValue
    ensures notice == ErrorNotice ==> forall k :: 0 <= k < |form| ==> result[k].value == form[k].value
    ensures notice == SuccessNotice ==> forall k :: 0 <= k < |form| ==> result[k].value == form[k].defaultValue
  {
    var marked: seq<Field> := [];
    var isValid := true;
    var k := 0;
    while k < |form|
      invariant 0 <= k <= |form|
      invariant |marked| == k
      invariant forall m :: 0 <= m < k ==> marked[m] == form[m].(invalid := Rejected(form[m]))
      invariant isValid <==> forall m :: 0 <= m < k ==> !Rejected(form[m])
    {
      var input := form[k];
      var invalid := CheckField(input);
      if invalid {
        isValid := false;
      }
      marked := marked + [input.(invalid := invalid)];
      k := k + 1;
    }
    if isValid {
      notice := SuccessNotice;
      result := Reset(marked);
    } else {
      notice := ErrorNotice;
      result := marked;
    }
  }

  /** An e-mail field holding "not-an-email" is refused although it is not blank. */
  lemma NotAnEmailFieldRefused(f: Field)
    requires f.inputType == "email" && f.value == "not-an-email"
    ensures Rejected(f) && !AllSpace(f.value)
  {
    NotAnEmailRejected();
    assert !IsSpace(f.value[0]);
  }

  /** A well-formed address preceded or followed by a no-break space (U+00A0,
      whitespace to both `trim()` and `\s`, yet kept by the browser in an e-mail
      field's value) is marked invalid although it is not blank after trimming. */
  lemma PaddedAddressMarked(f: Field, address: string)
    requires IsEmail(address)
    requires f.inputType == "email"
    requires f.value == [0xA0 as char] + address || f.value == address + [0xA0 as char]
    ensures Rejected(f)
    ensures Trim(f.value) != []
  {
    PaddedEmailRejected(address, 0xA0 as char);
    TrimEmptyIffAllSpace(f.value);
  }
}
