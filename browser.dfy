/** The browser state the admin pages share: the `adminToken` entry of local storage
    and the paths the page has navigated to. */
module Browser {
  import opened Wrappers

  const LoginPath := "/admin/login"

  class Window {
    /** `localStorage.getItem('adminToken')`; None when the key is absent. */
    var adminToken: Option<string>
    /** Every navigation, in order (router `navigate` and `window.location.href`). */
    var history: seq<string>

    constructor (token: Option<string>)
      ensures adminToken == token && history == []
    {
      adminToken := token;
      history := [];
    }

    /** `localStorage.removeItem('adminToken')` followed by a navigation to the login page. */
    method Logout()
      modifies this
      ensures adminToken == None
      ensures history == old(history) + [LoginPath]
    {
      adminToken := None;
      history := history + [LoginPath];
    }

    method Navigate(path: string)
      modifies this
      ensures adminToken == old(adminToken)
      ensures history == old(history) + [path]
    {
      history := history + [path];
    }
  }
}
