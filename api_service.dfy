/** The two endpoint shapes the interceptors distinguish. `base` stands for VITE_API_URL. */
module ApiService {

  const LoginPath: string := "/user/login"
  const RefreshTokenPath: string := "/user/refresh-token"

  function LoginUrl(base: string): string {
    base + LoginPath
  }

  function RefreshTokenUrl(base: string): string {
    base + RefreshTokenPath
  }
}
