/**
 * The signed upload of uploadToS3: a FormData built by eight appends, seven
 * values copied from the backend's signing data and the file last, posted to
 * the signing data's action URL.
 */
module UploadForm {
  import opened Wrappers

  /** The signing data the backend returns for one upload (the fields read from response.jsonData.data). */
  datatype Policy = Policy(
    action: string,
    key: string,
    awsAccessKeyId: string,
    acl: string,
    successActionStatus: string,
    policy: string,
    signature: string,
    contentType: string)

  /** A selected file: its name, its MIME type and its bytes. */
  datatype File = File(name: string, mimeType: string, contents: seq<bv8>)

  datatype FormValue = Text(text: string) | Blob(file: File)

  datatype FormEntry = Entry(name: string, value: FormValue)

  /** The POST that uploadToS3 hands to the transport. */
  datatype UploadRequest = Post(url: string, form: seq<FormEntry>)

  /** The form's field names, in the order the storage service receives them. */
  const FieldOrder: seq<string> :=
    ["key", "AWSAccessKeyId", "acl", "success_action_status", "policy", "signature", "Content-Type", "file"]

  /** The form uploadToS3 builds from the signing data p and the file. */
  function SignedForm(p: Policy, file: File): (form: seq<FormEntry>)
    ensures |form| == 8 && form[7].value == Blob(file)
    ensures forall i :: 0 <= i < 7 ==> form[i].value.Text?
  {
    [ Entry("key", Text(p.key)),
      Entry("AWSAccessKeyId", Text(p.awsAccessKeyId)),
      Entry("acl", Text(p.acl)),
      Entry("success_action_status", Text(p.successActionStatus)),
      Entry("policy", Text(p.policy)),
      Entry("signature", Text(p.signature)),
      Entry("Content-Type", Text(p.contentType)),
      Entry("file", Blob(file)) ]
  }

  function Names(form: seq<FormEntry>): (names: seq<string>)
    ensures |names| == |form|
    ensures forall i :: 0 <= i < |form| ==> names[i] == form[i].name
  {
    if form == [] then [] else [form[0].name] + Names(form[1..])
  }

  /** The value of the first entry called name, as the receiving side reads a field; None if there is none. */
  function Lookup(form: seq<FormEntry>, name: string): (r: Option<FormValue>)
  {
    if form == [] then None
    else if form[0].name == name then Some(form[0].value)
    else Lookup(form[1..], name)
  }

  /** Reading a name gives the value of the first entry with that name. */
  lemma {:induction false} LookupFirst(form: seq<FormEntry>, i: nat)
    requires i < |form|
    requires forall j :: 0 <= j < i ==> form[j].name != form[i].name
    ensures Lookup(form, form[i].name) == Some(form[i].value)
  {
    if i > 0 {
      assert form[1..][i - 1] == form[i];
      LookupFirst(form[1..], i - 1);
    }
  }

  /** FormData: an ordered list of entries that append extends. */
  class FormData {
    var entries: seq<FormEntry>

    constructor()
      ensures entries == []
    {
      entries := [];
    }

    method Append(name: string, value: FormValue)
      modifies this
      ensures entries == old(entries) + [Entry(name, value)]
    {
      entries := entries + [Entry(name, value)];
    }
  }

  /** uploadToS3's request: eight appends to a fresh FormData, posted to the signing data's action. */
  method BuildUpload(p: Policy, file: File) returns (request: UploadRequest)
    ensures request == Post(p.action, SignedForm(p, file))
  {
    var fd := new FormData();
    fd.Append("key", Text(p.key));
    fd.Append("AWSAccessKeyId", Text(p.awsAccessKeyId));
    fd.Append("acl", Text(p.acl));
    fd.Append("success_action_status", Text(p.successActionStatus));
    fd.Append("policy", Text(p.policy));
    fd.Append("signature", Text(p.signature));
    fd.Append("Content-Type", Text(p.contentType));
    fd.Append("file", Blob(file));
    request := Post(p.action, fd.entries);
  }

  /** The form has exactly eight fields, in the fixed order, with the file last. */
  lemma SignedFormShape(p: Policy, file: File)
    ensures |SignedForm(p, file)| == 8
    ensures Names(SignedForm(p, file)) == FieldOrder
    ensures SignedForm(p, file)[7] == Entry("file", Blob(file))
  {
  }

  /** No two fields share a name, so reading a field by name is unambiguous. */
  lemma FieldNamesDistinct()
    ensures forall i, j :: 0 <= i < j < |FieldOrder| ==> FieldOrder[i] != FieldOrder[j]
  {
  }

  /**
   * Reading the form by field name gives back each signed value unmodified,
   * and the file; so the storage service sees what the backend signed.
   */
  lemma SignedFormCarriesPolicy(p: Policy, file: File)
    ensures var form := SignedForm(p, file);
            Lookup(form, "key") == Some(Text(p.key))
            && Lookup(form, "AWSAccessKeyId") == Some(Text(p.awsAccessKeyId))
            && Lookup(form, "acl") == Some(Text(p.acl))
            && Lookup(form, "success_action_status") == Some(Text(p.successActionStatus))
            && Lookup(form, "policy") == Some(Text(p.policy))
            && Lookup(form, "signature") == Some(Text(p.signature))
            && Lookup(form, "Content-Type") == Some(Text(p.contentType))
            && Lookup(form, "file") == Some(Blob(file))
  {
    var form := SignedForm(p, file);
    FieldNamesDistinct();
    assert forall i :: 0 <= i < 8 ==> form[i].name == FieldOrder[i];
    LookupFirst(form, 0);
    LookupFirst(form, 1);
    LookupFirst(form, 2);
    LookupFirst(form, 3);
    LookupFirst(form, 4);
    LookupFirst(form, 5);
    LookupFirst(form, 6);
    LookupFirst(form, 7);
  }

  /** Two signing data that differ give different forms: nothing in the policy is dropped. */
  lemma SignedFormInjective(p: Policy, q: Policy, f: File, g: File)
    requires SignedForm(p, f) == SignedForm(q, g) && p.action == q.action
    ensures p == q && f == g
  {
  }
}
