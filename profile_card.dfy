/** The main button of a participant's profile card: what a click does, its
    label, whether it is disabled and its style, decided by whether the
    viewer is logged in, the connection status and whether a request is in
    flight. */
module ProfileCard {

  datatype ConnectionStatus = None | Pending | Accepted

  /** What a click on the main button does. */
  datatype Action = GoToLogin | CallOnConnect | DoNothing

  datatype Label = Connect | Processing | Connected | RequestSent

  /** `handleMainAction`: a logged-out viewer is sent to the login page;
      a logged-in viewer with no connection yet asks to connect. */
  function MainAction(isLoggedIn: bool, status: ConnectionStatus): (a: Action)
    ensures a == GoToLogin <==> !isLoggedIn
    ensures a == CallOnConnect <==> isLoggedIn && status == None
  {
    if !isLoggedIn then GoToLogin
    else if status == None then CallOnConnect
    else DoNothing
  }

  /** `getButtonContent`: logged out, then loading, then accepted, then
      pending decide the label, in that order. */
  function ButtonLabel(isLoggedIn: bool, isLoading: bool, status: ConnectionStatus): (l: Label)
    ensures !isLoggedIn ==> l == Connect
    ensures isLoggedIn && isLoading ==> l == Processing
    ensures isLoggedIn && !isLoading ==> (l == Connected <==> status == Accepted)
    ensures isLoggedIn && !isLoading ==> (l == RequestSent <==> status == Pending)
    ensures l == Connect <==> !isLoggedIn || (!isLoading && status.None?)
  {
    if !isLoggedIn then Connect
    else if isLoading then Processing
    else if status == Accepted then Connected
    else if status == Pending then RequestSent
    else Connect
  }

  /** `isButtonDisabled`. */
  function ButtonDisabled(isLoggedIn: bool, isLoading: bool, status: ConnectionStatus): (d: bool)
    ensures !isLoggedIn ==> !d
    ensures d <==> isLoggedIn && (status != None || isLoading)
  {
    isLoggedIn && (status == Accepted || status == Pending || isLoading)
  }

  /** `getButtonStyle`, decided by the connection status alone, as the list
      of its Tailwind classes (the source writes them space-separated in one
      string). Only a card with no connection yet has a hover colour; the
      other two show the default cursor, the accepted one green and the
      pending one grey. */
  function ButtonStyle(status: ConnectionStatus): (r: seq<string>)
    ensures "cursor-default" in r <==> !status.None?
    ensures "hover:bg-[#002855]" in r <==> status.None?
    ensures "bg-green-600" in r <==> status.Accepted?
    ensures "bg-gray-100" in r <==> status.Pending?
  {
    match status
    case Accepted => ["bg-green-600", "text-white", "border-none", "cursor-default"]
    case Pending => ["bg-gray-100", "text-[#002855]", "border", "border-gray-300", "cursor-default"]
    case None => ["bg-[#00629B]", "hover:bg-[#002855]", "text-white", "transition-colors", "duration-200"]
  }

  /** The three statuses have three different styles, and only a card with no
      connection yet looks clickable. */
  lemma StylesDistinct(s: ConnectionStatus, t: ConnectionStatus)
    ensures s != t ==> ButtonStyle(s) != ButtonStyle(t)
  {
  }

  /** The pieces agree: a click on an enabled button by a logged-in viewer
      always asks to connect and the button then reads "Connect"; a button
      that asks to connect is never disabled unless a request is in flight. */
  lemma ButtonConsistent(isLoggedIn: bool, isLoading: bool, status: ConnectionStatus)
    ensures isLoggedIn && !ButtonDisabled(isLoggedIn, isLoading, status) ==>
      MainAction(isLoggedIn, status) == CallOnConnect && ButtonLabel(isLoggedIn, isLoading, status) == Connect
    ensures MainAction(isLoggedIn, status) == CallOnConnect ==> (ButtonDisabled(isLoggedIn, isLoading, status) <==> isLoading)
    ensures !isLoggedIn ==> MainAction(isLoggedIn, status) == GoToLogin && !ButtonDisabled(isLoggedIn, isLoading, status)
  {
  }
}
