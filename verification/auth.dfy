/**
 * The credential a nation request carries (`nsapi.Auth`): a password, or an
 * autologin key that NationStates derives from the password.  The request
 * layer that sends it, nsapi.api, is not part of this model.
 */
module Credentials {
  datatype Auth = Password(password: string) | Autologin(autologin: string)

  /** `Auth(autologin=key)` when the keys are autologins, else `Auth(password=key)`. */
  function AuthOf(key: string, isAutologin: bool): (a: Auth)
    ensures isAutologin <==> a.Autologin?
    ensures a.Autologin? ==> a.autologin == key
    ensures a.Password? ==> a.password == key
  {
    if isAutologin then Autologin(key) else Password(key)
  }
}
