/** The application shell: which tab is shown, whether the user has logged in, whether the password
    dialog is open, and which protected tab waits for a successful login. */
module App {
  import opened Wrappers
  import opened Types
  import LoginModal

  /** The tabs that need a login: every tab but the query tab. */
  predicate IsProtected(v: AppView)
  {
    v == Schedule || v == Admin || v == Stats
  }

  class App {
    var currentView: AppView
    var isAuthenticated: bool
    var isLoginModalOpen: bool
    var protectedView: Option<AppView>

    /** A protected tab is shown only to a logged-in user; the dialog is open, and a tab waits for
        the login, only while logged out, and the waiting tab is a protected one. */
    ghost predicate Valid()
      reads this
    {
      && (IsProtected(currentView) ==> isAuthenticated)
      && (isLoginModalOpen ==> !isAuthenticated)
      && (protectedView.Some? ==> !isAuthenticated && IsProtected(protectedView.value))
    }

    /** The initial state: the query tab, logged out, dialog closed, nothing waiting. */
    constructor()
      ensures Valid()
      ensures currentView == Query && !isAuthenticated && !isLoginModalOpen && protectedView == None
    {
      currentView := Query;
      isAuthenticated := false;
      isLoginModalOpen := false;
      protectedView := None;
    }

    /** `handleTabClick`: a protected tab opens at once for a logged-in user; for anyone else it
        is recorded as waiting and the dialog opens, the shown tab staying as it was. The query tab
        always opens. */
    method HandleTabClick(view: AppView)
      requires Valid()
      modifies this
      ensures Valid()
      ensures IsProtected(view) && old(isAuthenticated) ==>
        currentView == view && isLoginModalOpen == old(isLoginModalOpen) && protectedView == old(protectedView)
      ensures IsProtected(view) && !old(isAuthenticated) ==>
        currentView == old(currentView) && isLoginModalOpen && protectedView == Some(view)
      ensures !IsProtected(view) ==>
        currentView == view && isLoginModalOpen == old(isLoginModalOpen) && protectedView == old(protectedView)
      ensures isAuthenticated == old(isAuthenticated)
    {
      if view == Schedule || view == Admin || view == Stats {
        if isAuthenticated {
          currentView := view;
        } else {
          protectedView := Some(view);
          isLoginModalOpen := true;
        }
      } else {
        currentView := view;
      }
    }

    /** `handleLoginSuccess`: logged in, dialog closed, and the waiting tab, if any, shown and no
        longer waiting. */
    method HandleLoginSuccess()
      requires Valid()
      modifies this
      ensures Valid()
      ensures isAuthenticated && !isLoginModalOpen && protectedView == None
      ensures currentView == if old(protectedView).Some? then old(protectedView).value else old(currentView)
    {
      isAuthenticated := true;
      isLoginModalOpen := false;
      if protectedView.Some? {
        currentView := protectedView.value;
        protectedView := None;
      }
    }

    /** `handleLogout`: logged out and back on the query tab; the dialog and the waiting tab are
        left alone. */
    method HandleLogout()
      requires Valid()
      modifies this
      ensures Valid()
      ensures !isAuthenticated && currentView == Query
      ensures isLoginModalOpen == old(isLoginModalOpen) && protectedView == old(protectedView)
    {
      isAuthenticated := false;
      currentView := Query;
    }

    /** The dialog's `onClose`: only the dialog closes; the waiting tab stays recorded. */
    method CloseModal()
      requires Valid()
      modifies this
      ensures Valid()
      ensures !isLoginModalOpen
      ensures currentView == old(currentView) && isAuthenticated == old(isAuthenticated)
      ensures protectedView == old(protectedView)
    {
      isLoginModalOpen := false;
    }

    /** Submitting the open dialog: its `onSuccess` is `handleLoginSuccess`, so the user is logged
        in exactly when the typed password is the accepted one. */
    method SubmitLogin(modal: LoginModal.LoginModal)
      requires Valid() && isLoginModalOpen
      modifies this, modal
      ensures Valid()
      ensures isAuthenticated <==> old(modal.password) == LoginModal.CorrectPassword
      ensures isAuthenticated ==> !isLoginModalOpen && protectedView == None
      ensures isAuthenticated ==>
        currentView == if old(protectedView).Some? then old(protectedView).value else old(currentView)
      ensures isAuthenticated ==> modal.password == old(modal.password) && modal.error == old(modal.error)
      ensures !isAuthenticated ==>
        isLoginModalOpen && currentView == old(currentView) && protectedView == old(protectedView)
      ensures !isAuthenticated ==> modal.password == "" && modal.error == LoginModal.WrongPasswordMessage
    {
      var success := modal.HandleSubmit();
      if success {
        HandleLoginSuccess();
      }
    }

    /** `renderView`: the view of the current tab, `None` (`null`) for a protected tab while logged
        out. */
    function RenderedView(): (r: Option<AppView>)
      reads this
      ensures r.None? <==> IsProtected(currentView) && !isAuthenticated
      ensures r.Some? ==> r.value == currentView
    {
      match currentView
      case Schedule => if isAuthenticated then Some(Schedule) else None
      case Admin => if isAuthenticated then Some(Admin) else None
      case Stats => if isAuthenticated then Some(Stats) else None
      case Query => Some(Query)
    }
  }

  /** In every reachable state the current tab's view is rendered: the blank `null` case never
      shows. */
  lemma RenderNeverBlank(app: App)
    requires app.Valid()
    ensures app.RenderedView() == Some(app.currentView)
  {
  }
}
