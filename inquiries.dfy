/**
 * The inquiry listing filter (`InquiryListAPI.get`): the `show_answered`
 * query parameter selects the answered inquiries, the unanswered ones, or all.
 */
module Inquiries {

  import opened Wrappers

  /** An `Inquiry` row; only the answered flag matters to the filter. */
  datatype Inquiry = Inquiry(id: int, title: string, answered: bool)

  /** `Inquiry.objects.filter(inquiry_is_answered=flag)`: the rows with that flag, in order. */
  function WithFlag(s: seq<Inquiry>, flag: bool): (r: seq<Inquiry>)
    ensures forall x :: x in r <==> x in s && x.answered == flag
    ensures forall x :: multiset(r)[x] == if x.answered == flag then multiset(s)[x] else 0
  {
    if s == [] then []
    else
      assert s == [s[0]] + s[1..];
      (if s[0].answered == flag then [s[0]] else []) + WithFlag(s[1..], flag)
  }

  /** The `show_answered` parameter, `'all'` when the request does not give one. */
  function Mode(showAnswered: Option<string>): (mode: string)
    ensures showAnswered.None? ==> mode == "all"
    ensures showAnswered.Some? ==> mode == showAnswered.value
  {
    if showAnswered.Some? then showAnswered.value else "all"
  }

  /** The inquiries the endpoint serialises. */
  function ListInquiries(inquiries: seq<Inquiry>, showAnswered: Option<string>): (r: seq<Inquiry>)
    ensures Mode(showAnswered) == "answered" ==> forall x :: x in r <==> x in inquiries && x.answered
    ensures Mode(showAnswered) == "not_answered" ==> forall x :: x in r <==> x in inquiries && !x.answered
    ensures Mode(showAnswered) != "answered" && Mode(showAnswered) != "not_answered" ==> r == inquiries
    ensures multiset(r) <= multiset(inquiries)
  {
    var mode := Mode(showAnswered);
    if mode == "answered" then WithFlag(inquiries, true)
    else if mode == "not_answered" then WithFlag(inquiries, false)
    else inquiries
  }

  /** The answered and the unanswered listings split the inquiries between them. */
  lemma ListingsPartition(inquiries: seq<Inquiry>)
    ensures multiset(ListInquiries(inquiries, Some("answered"))) + multiset(ListInquiries(inquiries, Some("not_answered")))
      == multiset(ListInquiries(inquiries, None))
  {
  }
}
