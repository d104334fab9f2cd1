/** The check-in form: a rating, a review, a date, a repeat-order flag, and
    photos kept as two parallel lists (the files and their preview URLs);
    submitting uploads the photos one by one and posts the visit. */
module CheckIn {
  import opened Wrappers
  import JsArray

  /** A browser `File`, opaque here. */
  datatype File = File(name: string)

  /** What one upload produced: `fetch` or `res.json()` threw, or the JSON body
      with its `url` field (absent or a string). */
  datatype UploadReply = UploadThrew | UploadJson(url: Option<string>)

  /** `if (data.url)`: the URL is present and not empty. */
  predicate HasUrl(reply: UploadReply) {
    reply.UploadJson? && reply.url.Some? && reply.url.value != ""
  }

  function UrlOf(reply: UploadReply): string
    requires HasUrl(reply)
  {
    reply.url.value
  }

  /** `uploadedUrls` after the upload loop over the replies, or `None` when an
      upload threw (the loop is then left for the `catch`). Only truthy URLs
      are kept, at most one per reply. */
  function CollectUrls(replies: seq<UploadReply>): (r: Option<seq<string>>)
    ensures r.Some? ==> |r.value| <= |replies|
    ensures r.Some? ==> forall i :: 0 <= i < |r.value| ==> r.value[i] != ""
  {
    if replies == [] then Some([])
    else
      var urls :- CollectUrls(replies[..|replies| - 1]);
      var last := replies[|replies| - 1];
      if last.UploadThrew? then None
      else if HasUrl(last) then Some(urls + [UrlOf(last)])
      else Some(urls)
  }

  /** The URLs of replies that all carry one, in their order. */
  function UrlsOf(kept: seq<UploadReply>): (r: seq<string>)
    requires forall i :: 0 <= i < |kept| ==> HasUrl(kept[i])
    ensures |r| == |kept|
  {
    seq(|kept|, i requires 0 <= i < |kept| => UrlOf(kept[i]))
  }

  /** The loop completes exactly when no upload threw. */
  lemma {:induction false} CollectUrlsCompletes(replies: seq<UploadReply>)
    ensures CollectUrls(replies).Some? <==> forall i :: 0 <= i < |replies| ==> !replies[i].UploadThrew?
  {
    if replies != [] {
      var init := replies[..|replies| - 1];
      CollectUrlsCompletes(init);
      assert forall i :: 0 <= i < |init| ==> init[i] == replies[i];
    }
  }

  lemma UrlsOfConcat(a: seq<UploadReply>, b: seq<UploadReply>)
    requires forall i :: 0 <= i < |a| ==> HasUrl(a[i])
    requires forall i :: 0 <= i < |b| ==> HasUrl(b[i])
    ensures UrlsOf(a + b) == UrlsOf(a) + UrlsOf(b)
  {
    assert forall i :: 0 <= i < |a + b| ==> UrlsOf(a + b)[i] == (UrlsOf(a) + UrlsOf(b))[i];
  }

  /** The filter over the replies so far, one reply longer. */
  lemma {:induction false} FilterSnoc(init: seq<UploadReply>, last: UploadReply)
    ensures JsArray.Filter(init + [last], HasUrl)
         == JsArray.Filter(init, HasUrl) + (if HasUrl(last) then [last] else [])
  {
    JsArray.FilterConcat(init, [last], HasUrl);
    assert [last][1..] == [];
  }

  /** When it completes, the loop keeps the URL of every reply that has one. */
  lemma {:induction false} CollectUrlsKeepsTruthy(replies: seq<UploadReply>)
    requires CollectUrls(replies).Some?
    ensures CollectUrls(replies).value == UrlsOf(JsArray.Filter(replies, HasUrl))
  {
    if replies != [] {
      var init, last := replies[..|replies| - 1], replies[|replies| - 1];
      CollectUrlsKeepsTruthy(init);
      assert replies == init + [last];
      FilterSnoc(init, last);
      var lastKept := if HasUrl(last) then [last] else [];
      UrlsOfConcat(JsArray.Filter(init, HasUrl), lastKept);
    }
  }

  /** The URLs kept: present exactly when no upload threw, and then the truthy
      URLs in file order, so never more than the files. */
  lemma CollectUrlsSpec(replies: seq<UploadReply>)
    ensures CollectUrls(replies).Some? <==> forall i :: 0 <= i < |replies| ==> !replies[i].UploadThrew?
    ensures CollectUrls(replies).Some? ==>
              CollectUrls(replies).value == UrlsOf(JsArray.Filter(replies, HasUrl))
    ensures CollectUrls(replies).Some? ==> |CollectUrls(replies).value| <= |replies|
  {
    CollectUrlsCompletes(replies);
    if CollectUrls(replies).Some? {
      CollectUrlsKeepsTruthy(replies);
    }
  }

  /** A throw in a prefix of the uploads ends the loop for good. */
  lemma {:induction false} CollectUrlsThrowSticks(replies: seq<UploadReply>, n: nat)
    requires n <= |replies| && CollectUrls(replies[..n]).None?
    ensures CollectUrls(replies).None?
  {
    if n < |replies| {
      var m := |replies| - 1;
      assert replies[..m][..n] == replies[..n];
      CollectUrlsThrowSticks(replies[..m], n);
    } else {
      assert replies[..n] == replies;
    }
  }

  /** The body posted to `/visits`. */
  datatype VisitPayload = VisitPayload(
    placeId: string, rating: int, review: string, isRepeatOrder: bool,
    visitedAt: string, photoUrls: seq<string>)

  /** How `handleSubmit` ends: the rating alert, a saved visit (the modal is
      closed and the app moves to `/history`), or the failure alert. */
  datatype SubmitOutcome = RatingMissing | Saved(payload: VisitPayload) | Failed

  class CheckInForm {
    var rating: int
    var review: string
    var visitDate: string
    var isRepeat: bool
    var files: seq<File>
    var previews: seq<string>
    var isSubmitting: bool
    var uploadProgress: string

    /** Files and previews stay parallel; the rating is 0 (none yet) or a
        number of stars. */
    ghost predicate Valid()
      reads this
    {
      |files| == |previews| && 0 <= rating <= 5
    }

    /** The initial state; `today` stands for `new Date().toISOString()`'s date. */
    constructor (today: string)
      ensures Valid()
      ensures rating == 0 && review == "" && visitDate == today && !isRepeat
      ensures files == [] && previews == [] && !isSubmitting && uploadProgress == ""
    {
      rating := 0;
      review := "";
      visitDate := today;
      isRepeat := false;
      files := [];
      previews := [];
      isSubmitting := false;
      uploadProgress := "";
    }

    /** A click on star `star` of the five. */
    method SelectStar(star: int)
      requires Valid() && 1 <= star <= 5
      modifies this
      ensures Valid() && rating == star
      ensures review == old(review) && visitDate == old(visitDate) && isRepeat == old(isRepeat)
      ensures files == old(files) && previews == old(previews)
      ensures isSubmitting == old(isSubmitting) && uploadProgress == old(uploadProgress)
    {
      rating := star;
    }

    method SetReview(text: string)
      requires Valid()
      modifies this
      ensures Valid() && review == text && rating == old(rating)
      ensures visitDate == old(visitDate) && isRepeat == old(isRepeat)
      ensures files == old(files) && previews == old(previews)
      ensures isSubmitting == old(isSubmitting) && uploadProgress == old(uploadProgress)
    {
      review := text;
    }

    method SetVisitDate(date: string)
      requires Valid()
      modifies this
      ensures Valid() && visitDate == date && rating == old(rating)
      ensures review == old(review) && isRepeat == old(isRepeat)
      ensures files == old(files) && previews == old(previews)
      ensures isSubmitting == old(isSubmitting) && uploadProgress == old(uploadProgress)
    {
      visitDate := date;
    }

    method SetRepeat(checked: bool)
      requires Valid()
      modifies this
      ensures Valid() && isRepeat == checked && rating == old(rating)
      ensures review == old(review) && visitDate == old(visitDate)
      ensures files == old(files) && previews == old(previews)
      ensures isSubmitting == old(isSubmitting) && uploadProgress == old(uploadProgress)
    {
      isRepeat := checked;
    }

    /** `handleFileSelect`: the chosen files (none when the list is empty or
        absent), with one object URL made for each. */
    method HandleFileSelect(chosen: seq<File>, objectUrls: seq<string>)
      requires Valid() && |objectUrls| == |chosen|
      modifies this
      ensures Valid() && rating == old(rating) && review == old(review)
      ensures visitDate == old(visitDate) && isRepeat == old(isRepeat)
      ensures isSubmitting == old(isSubmitting) && uploadProgress == old(uploadProgress)
      ensures files == old(files) + chosen
      ensures previews == old(previews) + objectUrls
    {
      if |chosen| > 0 {
        files := files + chosen;
        previews := previews + objectUrls;
      }
    }

    /** `removeFile(index)`: both lists filtered by position. */
    method RemoveFile(index: int)
      requires Valid()
      modifies this
      ensures Valid() && rating == old(rating) && review == old(review)
      ensures visitDate == old(visitDate) && isRepeat == old(isRepeat)
      ensures isSubmitting == old(isSubmitting) && uploadProgress == old(uploadProgress)
      ensures files == if 0 <= index < |old(files)| then old(files)[..index] + old(files)[index + 1..] else old(files)
      ensures previews == if 0 <= index < |old(previews)| then old(previews)[..index] + old(previews)[index + 1..] else old(previews)
    {
      JsArray.FilterIndexOther(files, index);
      JsArray.FilterIndexOther(previews, index);
      files := JsArray.FilterIndex(files, i => i != index);
      previews := JsArray.FilterIndex(previews, i => i != index);
    }

    /** `handleSubmit` with the replies of the uploads, one per file, and
        whether posting the visit returned without throwing. A rejected
        token makes the post redirect to the login page and return nothing
        instead of throwing, so that case also counts as returned and is
        reported as saved. */
    method HandleSubmit(placeId: string, uploads: seq<UploadReply>, postReturned: bool)
      returns (outcome: SubmitOutcome)
      requires Valid() && |uploads| == |files|
      modifies this
      ensures Valid()
      ensures rating == old(rating) && review == old(review) && visitDate == old(visitDate)
      ensures isRepeat == old(isRepeat) && files == old(files) && previews == old(previews)
      ensures old(rating) == 0 ==>
                outcome == RatingMissing && isSubmitting == old(isSubmitting) && uploadProgress == old(uploadProgress)
      ensures old(rating) != 0 ==> !isSubmitting && uploadProgress == ""
      ensures old(rating) != 0 ==>
                outcome == (match CollectUrls(uploads)
                            case None => Failed
                            case Some(urls) =>
                              if postReturned then Saved(VisitPayload(placeId, rating, review, isRepeat, visitDate, urls))
                              else Failed)
    {
      if rating == 0 {
        return RatingMissing;
      }
      isSubmitting := true;
      var uploadedUrls: seq<string> := [];
      var threw := false;
      if |files| > 0 {
        uploadProgress := "Mengupload foto...";
        var i := 0;
        while i < |files| && !threw
          invariant 0 <= i <= |files|
          invariant !threw ==> CollectUrls(uploads[..i]) == Some(uploadedUrls)
          invariant threw ==> 1 <= i && CollectUrls(uploads[..i]).None?
          invariant files == old(files) && rating == old(rating)
        {
          var reply := uploads[i];
          assert uploads[..i + 1][..i] == uploads[..i];
          if reply.UploadThrew? {
            threw := true;
          } else if HasUrl(reply) {
            uploadedUrls := uploadedUrls + [UrlOf(reply)];
          }
          i := i + 1;
        }
        if threw {
          CollectUrlsThrowSticks(uploads, i);
        } else {
          assert uploads[..i] == uploads;
        }
      }
      if threw {
        outcome := Failed;
      } else {
        uploadProgress := "Menyimpan kenangan...";
        var payload := VisitPayload(placeId, rating, review, isRepeat, visitDate, uploadedUrls);
        if postReturned {
          uploadProgress := "Selesai!";
          outcome := Saved(payload);
        } else {
          outcome := Failed;
        }
      }
      isSubmitting := false;
      uploadProgress := "";
    }
  }
}
