/** How the two endpoints fit together: a document stored by the upload
    endpoint is found by the access endpoint only when both name it the same
    way, and the two sanitisers and header checks differ. */
module Consistency {
  import opened Wrappers
  import opened FileSystem
  import opened Http
  import Text
  import Access = AccessToDocument
  import Save = SaveDocument

  /** The sanitisers agree exactly on names without a separator in which every
      character is either kept by the access sanitiser or replaced by the
      upload sanitiser. */
  lemma SanitizersAgreeIff(fileName: string)
    ensures Access.SanitizeFileName(fileName) == Save.SanitizeFileName(fileName) <==>
      '/' !in fileName && forall i :: 0 <= i < |fileName| ==> Access.IsAllowed(fileName[i]) || Save.IsDenied(fileName[i])
  {
    var a := Access.SanitizeFileName(fileName);
    var s := Save.SanitizeFileName(fileName);
    if '/' in fileName {
      NameShorter(fileName);
      assert |a| != |s|;
    } else {
      NameOfSegment(fileName);
      if forall i :: 0 <= i < |fileName| ==> Access.IsAllowed(fileName[i]) || Save.IsDenied(fileName[i]) {
        assert forall i :: 0 <= i < |fileName| ==> a[i] == s[i];
      } else {
        var i :| 0 <= i < |fileName| && !Access.IsAllowed(fileName[i]) && !Save.IsDenied(fileName[i]);
        assert a[i] == '_' && s[i] == fileName[i] && fileName[i] != '_';
      }
    }
  }

  /** A name both sanitisers keep: allowed characters only. */
  predicate SafeName(fileName: string) {
    forall i :: 0 <= i < |fileName| ==> Access.IsAllowed(fileName[i])
  }

  /** For a safe name, the file an upload writes is the file an access request
      with the same document type, id and name looks up. */
  lemma SafeNameFound(config: map<string, string>, documentId: string, fileName: string, documentType: string)
    requires SafeName(fileName) && documentType in config
    ensures Save.SaveTarget(config[documentType], documentId, fileName) ==
            Access.SourceFile(config, documentType, documentId, Access.SanitizeFileName(fileName))
  {
    assert '/' !in fileName by {
      assert !Access.IsAllowed('/');
    }
    SanitizersAgreeIff(fileName);
  }

  /** After a successful upload of a safe name, the access endpoint finds the
      stored file with the bytes of the upload. */
  lemma UploadThenAccessFinds(config: map<string, string>, documentId: string, fileName: string, documentType: string,
                              data: Stream<byte>, e: Entries, denied: set<Path>, now: int)
    requires SafeName(fileName)
    requires Save.StoreOutcome(config, documentId, fileName, documentType, data, e, denied, now).response.status == OK
    ensures documentType in config
    ensures var stored := Save.StoreOutcome(config, documentId, fileName, documentType, data, e, denied, now).entries;
      var source := Access.SourceFile(config, documentType, documentId, Access.SanitizeFileName(fileName));
      IsFile(stored, source) && stored[source].bytes == Text.Concat(data.chunks)
  {
    Save.StoredIff(config, documentId, fileName, documentType, data, e, denied, now);
    SafeNameFound(config, documentId, fileName, documentType);
  }

  /** A name with a space is stored under the space but looked up with an
      underscore: `a b.txt` is stored as `D_a b.txt` and sought as `D_a_b.txt`. */
  lemma SpaceNameNotFound(base: Path)
    ensures Save.SaveTarget(base, "D", "a b.txt") == Join(base, "D_a b.txt")
    ensures Access.SourceFile(map["pdf" := base], "pdf", "D", Access.SanitizeFileName("a b.txt")) == Join(base, "D_a_b.txt")
    ensures Join(base, "D_a b.txt") != Join(base, "D_a_b.txt")
  {
    Save.SanitizeKeepsOthers("a b.txt");
    NameOfSegment("a b.txt");
    assert Access.SanitizeFileName("a b.txt") == "a_b.txt";
    assert Join(base, "D_a b.txt")[|base| + 4] != Join(base, "D_a_b.txt")[|base| + 4];
  }

  /** The upload endpoint takes blank headers that the access endpoint refuses. */
  lemma BlankHeadersOnlyUploaded(data: Stream<byte>)
    ensures var h := Headers(Some(""), Some(" "), Some(""), Some(""), Some(""));
      Save.ValidateHeaders(Some(data), h).None? && !Access.ValidateHeaders(h)
  {
    var h := Headers(Some(""), Some(" "), Some(""), Some(""), Some(""));
    assert Text.Trim("") == [];
  }
}
